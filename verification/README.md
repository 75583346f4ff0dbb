# cartman, modelled in Dafny

cartman is a command-line client for the Trac ticket tracker. This project
models its pure core and proves properties about it:

- `fuzzy_find` turns the word a user typed into one of the server's options
  (milestones, components, statuses). `validate_id` parses ticket ids
  (`text.dfy`, module `Text`).
- The `Ticket` record: its defaults, the `#id.` and title rendering, and
  `factory`, which reads an export row in either column dialect
  (`ticket.dfy`, module `TicketModel`).
- The console helpers `underline` and `title` (`ui.dfy`, module `Ui`).
- `_format_headers`, which writes a ticket draft as email-style headers in a
  fixed order (`headers.dfy`, module `HeaderFormat`).
- The ticket-creation loop of `run_new`. It merges the edited document into
  the draft, checks the required fields and corrects fuzzy fields against the
  option lists. It repeats until the draft is clean or the user gives up
  (`draft.dfy`, module `TicketDraft`).
- The request-building parts of `comment`, `status` and `new`: comment
  choice and the empty-comment guard, status resolution, the form token
  added to every POST, the new-ticket form, and reading the new ticket's id
  from the final URL (`commands.dfy`, module `Commands`).

Supporting modules: `Wrappers` (`Option`, `Result`), `Errors` (the exception
kinds), `Strings` (lower-casing, `strip`, `int()` and `"%d"`, joining),
`OrderedMap` (dictionaries as ordered `(key, value)` sequences) and `Seqs`.

Modelling choices:

- `difflib.get_close_matches` is abstracted as a predicate
  `similar(word, possibility)`, which stands for "ratio at least 0.6". The
  at-most-three cap is kept. `Text.CloseMatches` proves the cap never changes
  whether exactly one match survives.
- Dictionaries are ordered sequences of entries, ordered by insertion.
  Python 2 dictionaries have no defined order. Only the non-default headers
  written by `_format_headers` depend on it.
- `int()` on text follows Python 2's `PyInt_FromString`: surrounding
  whitespace is skipped, then an optional sign, then more whitespace may
  follow the sign, then one or more ASCII digits must remain ("- 1" is -1).
- A `KeyError` (a missing option list or header) is a `Result` failure, not an
  excluded input.
- The server, the editor and the `^C` prompt are parameters. A `Round` of the
  ticket loop carries the option lists fetched for it, the headers and body
  parsed from the saved document, and whether the user pressed `^C`.

Three facts about the code that the model keeps:

- `fuzzy_find` has no separate exact-match stage. An exact option wins only
  through the similarity stage.
- `headers.update(em)` never removes a header. A header the user deleted from
  the document keeps its previous draft value (`TicketDraft.Merge`).
- `Ticket` carries only id, summary, reporter and description.

## Model

| member | source | states |
|---|---|---|
| Text.LowerIndex | cartman/text.py:21 | the lower-case index has no repeated key, and each lower-case form maps to the last option with that form |
| Text.CloseMatches | cartman/text.py:23 | at most three keys survive, all similar to the value; none survive exactly when no key is similar; exactly one survives exactly when exactly one key is similar |
| Text.WordMatches | cartman/text.py:25-29 | keeps exactly the keys in which the value occurs as a whole word on the first line (`re.match` anchors at the start and `.` stops at a line break) |
| Text.Candidates | cartman/text.py:23-29 | the counted matches are keys; when some key is similar they are all similar; when none is, they are exactly the keys holding the value as a whole word |
| Text.FuzzyFind | cartman/text.py:10-34 | no options give None; any result is one of the options in its original casing, and it is the last option with its lower-case form |
| Text.CandidatesDistinct | cartman/text.py:21-29 | the counted matches have no repeats and are no more than the options |
| Text.CandidatesAreSurvivors | cartman/text.py:21-29 | every counted match is the lower-case form of an option that passes the deciding stage |
| Text.SurvivorsAreCandidates | cartman/text.py:21-29 | an option that passes the deciding stage makes the match list non-empty, and is the match when there is only one |
| Text.FuzzyFindUnique | cartman/text.py:23-34 | a result is returned exactly when every surviving option shares one lower-case form; None means no survivor or survivors with two different forms |
| Text.FuzzyFindIgnoresCase | cartman/text.py:20-21 | lower-casing the value first does not change the result |
| Text.FuzzyFindPrefersSimilar | cartman/text.py:23-29 | when some option is similar, any result is a similar option: the word scan is not consulted |
| Text.FuzzyFindAsWritten | cartman/text.py:25-28 | the function as written can only fail with a NameError for `re` |
| Text.AsWrittenRaisesOnFallback | cartman/text.py:5-7 | as written, fuzzy_find raises exactly when options exist and none is similar; otherwise it agrees with the corrected function |
| Text.OnlyCandidate | cartman/text.py:31-34 | when one option alone passes the deciding stage and no other option shares its lower-case form, that option is returned |
| Text.OnlyWordMatch | cartman/text.py:23-32 | with no similar option and one option holding the value as a whole word, the corrected function returns it while the code as written raises |
| Text.BadOptionRaises | tests/test_text.py:72-73 | "meh" against ["bad"]: the corrected function gives None; as written it raises |
| Text.WordMatchFallback | tests/test_text.py:87-89 | "meh" against ["meh stuff", "mih stuff"] gives "meh stuff" through the word scan; as written it raises |
| Text.SameOption | tests/test_text.py:75-76 | "meh" against ["meh"] gives "meh" |
| Text.OneLetterDifference | tests/test_text.py:78-79 | "meh" against ["meg"] gives "meg" |
| Text.OneOfTwoSimilar | tests/test_text.py:84-85 | "meh" against ["megl", "mehl"] gives "mehl" when only "mehl" is similar |
| Text.ValidateId | cartman/text.py:37-49 | succeeds exactly when int() accepts the text, with int()'s value; every failure is InvalidParameter with the fixed message |
| Text.ValidateIdRoundTrip | cartman/text.py:43-49 | the decimal rendering of any integer validates back to that integer |
| Text.ValidateIdExamples | tests/test_text.py:60-67 | "12" gives 12; "qwe" and "1.2" give InvalidParameter |
| Text.ValidateIdSpacing | cartman/text.py:44 | int() skips whitespace around the text and after the sign: " 12 " is 12 and "- 1" is -1 |
| Strings.ParseInt | cartman/text.py:44 | an accepted text is blank, at most one sign, blank, one or more digits, blank, and reads as the signed value of those digits; so it holds only whitespace, signs and digits, with at least one digit; a plain run of digits reads as its decimal value |
| Strings.ParseIntReads | cartman/text.py:44 | every text of that shape is accepted, and reads as the signed value of its digits |
| Strings.ParseIntRoundTrip | cartman/text.py:44 | int() reads back every integer rendered with "%d" |
| Strings.StripEmptyIffBlank | cartman/app.py:354 | strip() leaves nothing exactly when every character is whitespace |
| OrderedMap.Put | cartman/app.py:481 | after `d[k] = v`, k reads v and every other key reads as before |
| OrderedMap.GetEntry | cartman/app.py:460 | in a dictionary, an entry is present exactly when reading its key gives its value |
| TicketModel.FormatId | cartman/ticket.py:10-11 | starts with "#", ends with ".", holds no space, and between them is exactly the decimal form of the id: a minus sign only for a negative id, no "+", no leading zero |
| TicketModel.FormatIdReadsBack | cartman/ticket.py:10-11 | the text between "#" and "." is read by int() as the id |
| TicketModel.TitleLine | cartman/ticket.py:13-18 | the id rendering, a space, the summary, " (", the reporter and ")" at the stated positions |
| TicketModel.FormatTitle | cartman/ticket.py:13-18 | the id rendering, a space, the summary, " (", the reporter and ")" at the stated positions |
| TicketModel.TitleIdRoundTrip | cartman/ticket.py:13-18 | the id can be read back from any title |
| TicketModel.ParseIdColumn | cartman/ticket.py:24-27 | succeeds exactly when int() accepts the column, with that value; otherwise a ValueError |
| TicketModel.Factory | cartman/ticket.py:21-40 | "id" wins over "ticket" and is read by int(); "_reporter" wins over "reporter"; summary, reporter and description are copied verbatim; missing columns keep the defaults; a bad id is a ValueError |
| TicketModel.FactoryIgnoresOtherColumns | cartman/ticket.py:21-40 | adding a column outside the translation table changes nothing |
| TicketModel.FactoryDefaults | cartman/ticket.py:4-8 | a row with no known column gives id 0, "Summary N/A", "Reporter N/A", "Description N/A" |
| TicketModel.FactoryRoundTrip | cartman/ticket.py:21-40 | a ticket written as a row in either column dialect is read back unchanged |
| TicketModel.FactoryCurrentExample | tests/test_ticket.py:21-32 | the current-dialect row of the tests gives ticket 245 "meh" by "douche" with its description |
| TicketModel.FactoryLegacyExample | tests/test_ticket.py:34-41 | the legacy-dialect row gives ticket 123 by "douche", with the default summary and description |
| TicketModel.FormatIdExamples | tests/test_ticket.py:8-12 | a fresh ticket renders "#0.", ticket 255 renders "#255." |
| TicketModel.FormatTitleExample | tests/test_ticket.py:14-19 | ticket 255 "meh" by jcarmack renders "#255. meh (jcarmack)" |
| Ui.Underline | cartman/ui.py:5-11 | same length as the text, all dashes |
| Ui.Title | cartman/ui.py:14-22 | empty for empty text; otherwise the text, a newline and a dash line of the same length |
| Ui.UiExamples | tests/test_ui.py:8-24 | the six test cases for underline and title |
| HeaderFormat.IndexOf | cartman/app.py:211 | `list.index`: the first position of the element. `list.index` raises ValueError for an absent element; at app.py:211 every key is in `sort_ref`, so that case never arises there, and the model returns the length for it |
| HeaderFormat.SelectHeaders | cartman/app.py:208-211 | every written header is a draft entry whose key is a default field or whose value is non-empty |
| HeaderFormat.SelectHeadersMembers | cartman/app.py:210 | a header is written exactly when its key is a default field or its value is non-empty |
| HeaderFormat.SelectHeadersOrder | cartman/app.py:208-211 | written headers are strictly ordered: default fields first, in default-field order, then the other keys in dictionary order |
| HeaderFormat.FormatHeaders | cartman/app.py:201-212 | the "key: value" text of every written header occurs in the block |
| HeaderFormat.FormatHeadersRoundTrip | cartman/app.py:201-212 | reading the rendered "key: value" lines back gives exactly the selected headers, in order |
| TicketDraft.InitialHeaders | cartman/app.py:417-433 | the draft starts with distinct keys, "To" is the owner or else the user name, and every default, required and fuzzy field is present; "Subject", "Cc", "Keywords", "Milestone", "Component" and "Version" are blank, "Priority" is "2" and "Type" is "defect" |
| TicketDraft.MessageGet | cartman/app.py:460 | reading a name gives the value of the first header whose name matches it ignoring case, and nothing exactly when no header matches |
| TicketDraft.Merge | cartman/app.py:459-460 | every header named in the document takes the document's value; every other header keeps its draft value; no header is removed; keys stay distinct |
| TicketDraft.CheckRequired | cartman/app.py:466-471 | fails with KeyError exactly when a non-fuzzy required field is missing; otherwise reports only "blank" problems, one per listing of each unfilled non-fuzzy required field |
| TicketDraft.Resolve | cartman/app.py:478-487 | a listed value is kept with no problem; an unlisted value with a usable fuzzy match becomes that match; with no usable match a required field raises a problem and keeps its value, and an optional field is cleared to "" |
| TicketDraft.ResolveAsWritten | cartman/app.py:478-487 | over `fuzzy_find` as written in cartman/text.py, the step raises NameError exactly when the value is unlisted, options exist and none is similar; otherwise it agrees with Resolve |
| TicketDraft.BlankFieldRaisesAsWritten | cartman/app.py:423-432 | over `fuzzy_find` as written in cartman/text.py, a blank fuzzy field (as "Version", "Milestone" and "Component" start) raises NameError whenever the server offers options |
| TicketDraft.Describe | cartman/app.py:471 | the printed line names the field, and an unexpected-value line lists every option |
| TicketDraft.CorrectOne | cartman/app.py:475-487 | one loop step changes only its own field, to the corrected value |
| TicketDraft.CorrectFields | cartman/app.py:475-487 | fails exactly when an option list or a header is missing; otherwise headers outside the fields are unchanged |
| TicketDraft.CorrectFieldsValues | cartman/app.py:475-487 | after a successful pass each field holds its corrected value |
| TicketDraft.CorrectFieldsFailure | cartman/app.py:475-478 | a failed pass names a field's missing option list or missing header |
| TicketDraft.CorrectFieldsProblems | cartman/app.py:478-487 | the problems reported are exactly those of the individual fields |
| TicketDraft.Validate | cartman/app.py:459-487 | headers outside the fuzzy set end as the merge left them; no header is lost; a failure is a missing option list or a header missing from the draft; a successful pass reports the blank report of the merged draft followed by the whole fuzzy report, with no short-circuit |
| TicketDraft.ValidateReport | cartman/app.py:462-487 | a pass reports one blank problem per listing of each unfilled required field, exactly the unexpected-value problems of the fuzzy fields, and leaves each fuzzy field on its corrected value |
| TicketDraft.NoBlanks | cartman/app.py:466-471 | no blank report means every non-fuzzy required field is present and filled in |
| TicketDraft.NoFuzzyProblems | cartman/app.py:475-487 | no fuzzy report means every fuzzy field holds an option, or "" when optional |
| TicketDraft.ValidateSound | cartman/app.py:459-490 | a pass with an empty problem list leaves a draft that meets every demand |
| TicketDraft.FilledNoBlanks | cartman/app.py:466-471 | filled-in required fields give an empty blank report |
| TicketDraft.ResolvedNoProblems | cartman/app.py:475-487 | fields already holding options, or optional, raise no problem |
| TicketDraft.ValidateComplete | cartman/app.py:459-490 | a merged draft that already meets every demand passes with no problem |
| TicketDraft.RunRounds | cartman/app.py:435-499 | a loop that does not abort keeps every header of its starting draft; an abort is ^C only if some round's prompt was interrupted, and is otherwise a missing option list or a missing header |
| TicketDraft.RunRoundsLeaves | cartman/app.py:435-499 | the loop ends at the first round that does not go back to the editor: a failed lookup aborts with its KeyError, a clean pass creates the ticket from that pass's headers and that round's body, and a pass with problems aborts on ^C |
| TicketDraft.RunRoundsRunsOut | cartman/app.py:435-499 | when every round finds problems and the user presses Enter, the loop is still in the editor, with the last round's body |
| TicketDraft.RunRoundsAccepts | cartman/app.py:435-499 | the loop creates the ticket exactly when some round it reaches (every earlier round found problems and the user pressed Enter) passes with no problem; the ticket then has that pass's headers and that round's body |
| TicketDraft.RunRoundsInterrupted | cartman/app.py:489-499 | the loop aborts with "ticket creation interrupted" exactly when a round it reaches finds problems and the user presses ^C |
| TicketDraft.PassFailsOnLookup | cartman/app.py:459-487 | a pass of the loop fails only with KeyError, never with ^C |
| TicketDraft.RunRoundsCreated | cartman/app.py:435-499 | the loop ends in creation only with a draft valid for that round's option lists, carrying that round's body |
| TicketDraft.RunNew | cartman/app.py:411-499 | from the initial draft, the ticket is created exactly when some reached round passes with no problem, and then from that pass's headers and that round's body; a created ticket is valid and keeps every initial header; an abort is ^C only if some round's prompt was interrupted, and is otherwise a missing option list or a configured required field the draft never had |
| Commands.FormToken | cartman/app.py:62-72 | the value of the first cookie named "trac_form_token", else "" |
| Commands.WithToken | cartman/app.py:114-115 | non-empty form data gains "__FORM_TOKEN" with the token; empty data is unchanged; no other field changes |
| Commands.TicketUpdate | cartman/app.py:357-361 | the ticket form holds exactly the timestamp, the action, the comment and the form token, posted to the ticket's page |
| Commands.TicketPath | cartman/app.py:346 | "/ticket/" followed by text int() reads back as the id |
| Commands.ChosenComment | cartman/app.py:349-352 | the -m message when given, and the editor text exactly when no message was given |
| Commands.CommentRequest | cartman/app.py:333-361 | a bad id fails as validate_id does; a blank comment fails with "empty comment, cancelling" before any POST; otherwise the form leaves the chosen comment with the timestamp, action "leave" and the token |
| Commands.CheckSaved | cartman/app.py:363-364 | the answer is accepted exactly when the status is 200 and the page has no "system-message" |
| Commands.BadStatus | cartman/app.py:387-388 | the "bad status" error is a FatalError whose message lists every status of the ticket |
| Commands.StatusRequest | cartman/app.py:366-406 | a bad id fails as validate_id does; no requested status shows the statuses; a request with no usable match fails listing the statuses; a request with a usable match always posts, to the ticket's page, exactly the timestamp, the match (one of the statuses) as the action, the chosen comment and the form token |
| Commands.Lookup | cartman/app.py:502 | `headers[name]` succeeds exactly when the header exists, else KeyError |
| Commands.NewTicketForm | cartman/app.py:501-512 | succeeds exactly when all eight headers exist |
| Commands.NewTicketFormFirstMissing | cartman/app.py:501-512 | a failure names the first missing header in reading order |
| Commands.NewTicketFormFields | cartman/app.py:501-512 | the form has the ten fields, eight copied from the headers, the body as description and an empty attachment |
| Commands.LastSegment | cartman/app.py:518 | the longest slash-free suffix of the URL |
| Commands.NewTicketId | cartman/app.py:514-520 | a status other than 200 is "unable to create new ticket."; otherwise the id is the last URL segment read by int(), or "returned ticket_id is invalid." |
| Commands.LastSegmentAfterSlash | cartman/app.py:518 | the text after a final slash is recovered when it holds no slash |
| Commands.NewTicketIdRoundTrip | cartman/app.py:517-520 | the URL of any ticket's page yields that ticket's id |
| Commands.CreatedDraftHasForm | cartman/app.py:501-512 | a draft the loop accepts always yields the new-ticket form |
| Commands.CommentWithoutTextCancels | tests/test_app.py:130-138 | `comment 1` with no message and an empty editor buffer is cancelled |
| Commands.CommentWithMessage | tests/test_app.py:120-128 | `comment 1 -m "brilliant!"` posts that comment to /ticket/1 |
| Commands.StatusReopen | tests/test_app.py:140-150 | `status 1 reopen` against "reopen" and "close" posts action "reopen" with an empty comment (that test method is redefined at tests/test_app.py:152-165, so the suite never runs it) |

## Left out

- HTTP transport, `login`, `get`, `get_dicts` and the session: network I/O. Cookies, page contents, status codes and URLs are parameters.
- The page extraction functions (`extract_timestamp`, `extract_statuses`, `extract_properties`, `extract_status_from_ticket_page`, `extract_trac_version`) are not part of this model. Their results are parameters.
- Reading the configuration file: the required fields are a parameter. The constant `TicketDraft.RequiredFields` records the built-in list.
- The editor, the temporary files and the `_input` prompt: user I/O. `_read_comment` is the `editorText` parameter, and the prompt is the `interrupted` flag of a round.
- The email parser: a round carries the parsed headers and body. Folding, continuation lines and header syntax are not modelled. `HeaderFormat.ParseHeaders` is a plain line reader used only to state the round trip.
- Printing (error lists, "ticket #N created", current and available statuses), `webbrowser`, command dispatch and help: output and reflection only.
- The internals of `difflib.get_close_matches` (SequenceMatcher ratio, cutoff 0.6): foreign, float-based code. It is abstracted as the `similar` predicate, and the test-case lemmas state which pairs are similar as preconditions.
- Text.WordMatches: the value is matched literally. A value holding regular-expression metacharacters would be a pattern in the source. `\b` is taken as ASCII.
- Strings.Lower: only ASCII letters are folded. Python 2 folds more letters in `unicode` strings, such as option lists decoded from server pages.
- Commands.StatusRequest and TicketDraft.Resolve: built on the corrected `fuzzy_find`. `cartman/app.py` calls `text.extract_*` functions that `cartman/text.py` does not define, so the `text` module it imports is a different version of that file. If that version's `fuzzy_find` has the same fallback, `run_status` raises NameError instead of "bad status" when the requested status is unlisted and similar to none, and `run_new` raises NameError whenever a fuzzy field holds an unlisted value similar to no option, including the blank initial "Version", "Milestone" and "Component". TicketDraft.ResolveAsWritten and TicketDraft.BlankFieldRaisesAsWritten state that case.
- The fuzzy_find case "meh" against ["meg", "meh"] (tests/test_text.py:81-82) is not stated: that test method is redefined at tests/test_text.py:84-85 and never runs.
- Text.ValidateId: only string inputs are modelled. `validate_id(None)` raises `TypeError` in the source and is not covered.
- TicketModel.ParseIdColumn: the ValueError message quotes the whole column as `'` + text + `'`. CPython 2.7 builds the message of `int()` from `repr()` of the text as a byte string, so there is no `u` prefix even for unicode text; it also drops the leading whitespace, escapes quotes, backslashes and control characters, and truncates the text at 200 characters.
- TicketModel.ParseIdColumn: a row is a `map<string, string>`, so every column holds text. `csv.DictReader` fills the columns of a short row with `None`, and `int(None)` raises `TypeError`; that case is not covered.
- TicketDraft.RunRounds: the rounds are a finite sequence. A loop that never ends shows up as `Editing`.
- The legacy `cartlib` prototype, `setup.py` and the exception class declarations, apart from the error kinds in `Errors`.

## Findings

| source | as written | input that shows it | evidently intended | confidence | as-written member | corrected member |
|---|---|---|---|---|---|---|
| cartman/text.py:28 | the fallback calls `re.match`, but `re` is never imported (cartman/text.py:5-7), so it raises NameError; `run_new` and `run_status` inherit it only if app.py imports this text.py, which lacks the `extract_*` functions app.py calls | `fuzzy_find("meh", ["bad"])`, and `fuzzy_find("meh", ["meh stuff", "mih stuff"])` from the tests | when no option is similar, keep the options in which the value occurs as a whole word; return one if exactly one remains | high; not executed | Text.FuzzyFindAsWritten, Text.BadOptionRaises, TicketDraft.ResolveAsWritten, TicketDraft.BlankFieldRaisesAsWritten | Text.FuzzyFind, Text.WordMatchFallback, TicketDraft.Resolve |
