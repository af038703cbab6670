# OPD journal generator — a Dafny model

The OpenERP wizard `opd.journal.generator.wizard` turns a pasted list of OPD
ticket references (`OPD-0412768`, …) into posted journal entries
(`account.move`). This project models its three pieces of logic and proves
what they promise:

- **Reference tokenizer** (`_normalize_opd_tokens`, module `OpdTokens`,
  `opd_tokens.dfy`). `re.findall(r'OPD-\s*\d+', text, re.IGNORECASE)` over a
  Python 2 byte string is a left-to-right scanner. At each position it tries a
  case-insensitive `OPD-`. It then skips whitespace greedily (space, tab,
  newline, carriage return, vertical tab, form feed) and takes one or more
  ASCII digits greedily. On failure it retries one position later. On success
  it resumes after the match. Each match is normalized by
  `strip().upper().replace(' ', '')`. Then repeats are dropped and first
  occurrences kept. The source's two loops are the methods
  `NormalizeEach` and `KeepFirstSeen`, called by `NormalizeOpdTokens`. It is proved equal to the function `NormalizedTokens`,
  and that function's properties are proved as lemmas.
- **Journal-entry builder** (`_prepare_move_vals` and `_period_id_for_date`,
  module `MoveBuilder`, `move_builder.dfy`). Tickets, ticket lines and items
  are datatypes. `account.period.find` is a function parameter. Each
  `osv.except_osv` is a `Failure` carrying a `BuildError`. The checks run in
  the source's order, then the debit line and the credit-line loop follow. The
  method `PrepareMoveVals` (with its loop `AddIncomeLines`) is proved equal to
  the function `MoveVals`.
- **Batch tally** (`_move_exists` and the loop of `action_generate`, module
  `BatchGenerate`, `batch_generate.dfy`). The ORM calls are the functions of a
  `Collaborators` value:
  - `lookup` is the ticket search and browse;
  - `find` is the period search;
  - `post` is `create` followed by `button_validate`, true when both succeed.

  The `account.move` table is a sequence of stored moves that a successful post
  extends. `ActionGenerate` is proved equal to the function `Run`, a fold of
  one loop iteration `Step` over the references.

Modelling choices:

- Amounts are integers (cents).
- Record ids are naturals, and 0 stands for Python's `False`. An unset income
  account is 0, and a period search with no result gives period 0.
- A missing ticket date is the empty string.
- `opd_list or ''` is the caller's job: the text is a string.

The code removes only the space character, so `OPD-\t12` stays `OPD-\t12`
(`TabSurvivesExample`), and it rejects every total `<= 0`.

## Model

| member | source | states |
|---|---|---|
| `OpdTokens.NormalizeOpdTokens` | opd_journal_generate_wizard.py:35-58 | The two loops return exactly `NormalizedTokens(text)`: empty for empty text, no repeats, and every token begins with `OPD-`, has no space and ends with a digit |
| `OpdTokens.NormalizeEach` | opd_journal_generate_wizard.py:47-50 | The normalizing loop yields, in order, the normalization of each match |
| `OpdTokens.KeepFirstSeen` | opd_journal_generate_wizard.py:51-57 | The seen/out loop yields the de-duplication of its input (first occurrences, in order) |
| `OpdTokens.MatchAtSound` | opd_journal_generate_wizard.py:46 | A match the scanner finds at position i is a whole match of `OPD-\s*\d+`, case-insensitive, and is greedy: no digit follows it |
| `OpdTokens.MatchAtComplete` | opd_journal_generate_wizard.py:46 | If any text starting at i matches the pattern, the scanner finds a match at i at least as long (the longest match at i) |
| `OpdTokens.FindAllSound` | opd_journal_generate_wizard.py:46 | Every string findall returns matches the pattern |
| `OpdTokens.FindAllInText` | opd_journal_generate_wizard.py:46 | Every string findall returns is the slice of the text from some position to the end of the match the scanner found there, and no digit follows it (so `OPD-1` is never returned from inside `OPD-12`) |
| `OpdTokens.NoPrefixInsideMatch` | opd_journal_generate_wizard.py:46 | No `OPD-` starts strictly inside a match the scanner found, so findall's resuming after a match skips no occurrence |
| `OpdTokens.FindAllComplete` | opd_journal_generate_wizard.py:46 | Every occurrence of the pattern at or after the scan start is found: findall returns a match starting at the same position, at least as long |
| `OpdTokens.NormalizeOfMatch` | opd_journal_generate_wizard.py:48-50 | Normalizing a match gives `OPD-` then the text after the dash with only its spaces removed (strip removes nothing, upper only touches `opd`), and the result is a well-formed token |
| `OpdTokens.RemoveSpacesKeepsShape` | opd_journal_generate_wizard.py:49 | `replace(' ', '')` applied to whitespace-then-digits leaves whitespace-then-digits with no space in it |
| `OpdTokens.SpellingsOfOneReference` | opd_journal_generate_wizard.py:46-49 | Two matches that differ only in the case of `opd` or in embedded spaces normalize to the same token |
| `OpdTokens.DedupeElements` | opd_journal_generate_wizard.py:51-57 | De-duplication keeps exactly the set of elements of its input |
| `OpdTokens.DedupeDistinct` | opd_journal_generate_wizard.py:51-57 | De-duplication leaves no element twice |
| `OpdTokens.DedupeOfDistinct` | opd_journal_generate_wizard.py:51-57 | De-duplicating a list without repeats returns it unchanged, so de-duplication is idempotent |
| `OpdTokens.DedupeFirstSeenOrder` | opd_journal_generate_wizard.py:51-57 | Kept elements appear in the order of their first occurrence in the input |
| `OpdTokens.TokensAreNormalizedMatches` | opd_journal_generate_wizard.py:46-58 | A token is output if and only if it is the normalization of some match findall returns (a shorter match inside a longer one, such as `OPD-1` inside `OPD-12`, is not one of them) |
| `OpdTokens.TokensComeFromText` | opd_journal_generate_wizard.py:46-58 | Every output token is the normalization of the match the scanner found at some position of the text |
| `OpdTokens.TokensCoverEveryMatch` | opd_journal_generate_wizard.py:46-58 | Every occurrence of the pattern in the text contributes a token: the normalization of the longest match starting at the same position is output |
| `OpdTokens.TokensDistinct` | opd_journal_generate_wizard.py:51-58 | The tokenizer output has no duplicates |
| `OpdTokens.TokensWellFormed` | opd_journal_generate_wizard.py:46-58 | Every output token begins with upper-case `OPD-`, contains no space and ends with an ASCII digit |
| `OpdTokens.TokensInFirstSeenOrder` | opd_journal_generate_wizard.py:51-58 | Output tokens are ordered by the first occurrence of each among the normalized matches |
| `OpdTokens.TokensDedupeIdempotent` | opd_journal_generate_wizard.py:51-58 | Running the seen/out loop again on the output changes nothing |
| `OpdTokens.NoWordBoundaryExample` | opd_journal_generate_wizard.py:46 | `XOPD-12` yields `OPD-12`: there is no word boundary |
| `OpdTokens.TabSurvivesExample` | opd_journal_generate_wizard.py:49 | `OPD-\t12` yields `OPD-\t12`: whitespace other than the space survives normalization |
| `OpdTokens.VariantsCollapseExample` | opd_journal_generate_wizard.py:46-57 | `opd- 12,OPD-12` yields the single token `OPD-12` |
| `MoveBuilder.PeriodErrorOnlyForEmptyDate` | opd_journal_generate_wizard.py:78-82 | The period lookup raises only for an empty date, and then with the empty-date error |
| `MoveBuilder.PeriodIgnoresTimeOfDay` | opd_journal_generate_wizard.py:77-88 | A datetime and its first 10 characters give the same period |
| `MoveBuilder.FirstMissingAccount` | opd_journal_generate_wizard.py:128-134 | Gives the first line without an income account: none exactly when every line has one, otherwise an index whose line lacks it and all earlier lines have one |
| `MoveBuilder.CreditsShape` | opd_journal_generate_wizard.py:136-153 | Every credit line debits 0 and credits a positive amount; there is none exactly when no line amount is positive |
| `MoveBuilder.PositiveIndicesExact` | opd_journal_generate_wizard.py:136-138 | The lines kept are, in increasing index order, exactly those with a positive amount |
| `MoveBuilder.CreditsFollowPositiveLines` | opd_journal_generate_wizard.py:128-153 | The k-th credit line is the credit line of the k-th ticket line with a positive amount |
| `MoveBuilder.PrepareMoveVals` | opd_journal_generate_wizard.py:97-165 | The method returns or raises exactly what `MoveVals` gives |
| `MoveBuilder.AddIncomeLines` | opd_journal_generate_wizard.py:126-153 | The line loop fails at the first line without an income account, otherwise it appends the credit lines of the positive-amount lines, and its `added` flag is set exactly when one was appended |
| `MoveBuilder.MoveValsAfterChecks` | opd_journal_generate_wizard.py:109-165 | Once the ticket checks and every account check pass, the result is "No income lines" when there are no credits, otherwise the move with the debit line first |
| `MoveBuilder.MoveValsSucceedsIff` | opd_journal_generate_wizard.py:97-165 | The builder succeeds if and only if the total is positive, the state check passes or is off, a period is found, every line has an income account, and some line amount is positive |
| `MoveBuilder.TotalCheckedFirst` | opd_journal_generate_wizard.py:98-100 | A total `<= 0` is rejected whatever the state, date and lines |
| `MoveBuilder.UnconfirmedRejected` | opd_journal_generate_wizard.py:102-103 | With only_confirmed set, a positive-total ticket that is not `confirmed` is rejected |
| `MoveBuilder.StateIgnoredUnlessOnlyConfirmed` | opd_journal_generate_wizard.py:102-103 | With only_confirmed unset, changing the ticket state never changes the result |
| `MoveBuilder.AccountCheckedBeforeAmount` | opd_journal_generate_wizard.py:128-138 | A line without an income account is an error even when its amount is not positive |
| `MoveBuilder.NoIncomeLinesWithoutPositiveAmount` | opd_journal_generate_wizard.py:136-156 | When all lines have accounts but none has a positive amount, the builder fails with "No income lines" |
| `MoveBuilder.MoveValsShape` | opd_journal_generate_wizard.py:109-165 | A built move has name `/`, the wizard's journal, the ticket's date and name as ref, and the period found. Its first line debits the cash account with the ticket total and credits 0. Then come at least one credit line, one per positive-amount ticket line in order, each crediting that amount on the item's income account |
| `BatchGenerate.MoveExists` | opd_journal_generate_wizard.py:90-95 | The domain search finds a move if and only if a move with that ref exists that is posted, or of any state when include_draft is set |
| `BatchGenerate.DraftCountsOnlyWithIncludeDraft` | opd_journal_generate_wizard.py:90-95 | A ref whose only moves are drafts counts as existing exactly when include_draft is set |
| `BatchGenerate.ActionGenerate` | opd_journal_generate_wizard.py:170-215 | Rejects text with no reference up front. Otherwise the result is `Run` over the tokens, accounting for every token, and the table grows by exactly one move per created entry |
| `BatchGenerate.StepHandlesOneRef` | opd_journal_generate_wizard.py:186-213 | One iteration adds the reference to exactly one of not_found, skipped_existing, errors or created; only created adds a posted move |
| `BatchGenerate.RunAccountsForEveryRef` | opd_journal_generate_wizard.py:181-213 | created + skipped_existing + len(not_found) + len(errors) equals the number of references; the table is only extended, by `created` posted moves |
| `BatchGenerate.ExistingMoveIsSkipped` | opd_journal_generate_wizard.py:196-199 | A ticket with an existing move is counted as skipped and never reaches create |
| `BatchGenerate.BuildErrorIsRecorded` | opd_journal_generate_wizard.py:201-202 | A ticket the builder rejects is appended to errors with its reason and the batch goes on |
| `BatchGenerate.PostOutcome` | opd_journal_generate_wizard.py:204-213 | A built move that posts is counted as created and stored as posted; one that fails to post is recorded as an error |
| `BatchGenerate.RunKeepsOnePostedPerRef` | opd_journal_generate_wizard.py:196-208 | If no ref had two posted moves before the batch, none has after it: the batch never posts a duplicate journal entry |

## Left out

- The ORM itself is not modelled. `search`, `browse`, `create`, `button_validate` and `account.period.find` are function parameters.
- The ticket search and browse, the move search and the period search cannot raise in the model. Only building and posting can fail.
- `post` combines `create` and `button_validate`. A move created but not validated is not modelled, and neither is an aborted database transaction. A failed post leaves the table unchanged.
- Commits are left out: `cr.commit()` every `commit_every` created entries and at the end are database side effects.
- RunAccountsForEveryRef, ActionGenerate: the model assumes `cr.commit()` succeeds. In the source a commit raising at line 210 comes after `created += 1`, so that reference would be counted both as created and as an error, and the four counts would exceed the number of references by one.
- The summary message is left out: its text, its truncation to the first 20 and 15 entries, and the final `osv.except_osv` that shows it. The model returns the tally, and an error entry is the pair (reference, reason) instead of the formatted text.
- Errors carry the ticket and item names but not the translated message text.
- Amounts are integers instead of Python floats.
- The constant fields of each move line are not modelled (partner, analytic account, tax code and amount, currency, maturity, amount in currency).
- The `account_period_prefer_normal` context flag passed to the period search is part of the `find` parameter.
- Characters are Dafny `char`. `upper()` and case-insensitive matching use the ASCII mapping of the C locale. Locale-dependent mapping of bytes above 127 is not modelled.
- The wizard's `_columns` and `_defaults` (field declarations and hard-coded account and journal ids) are configuration, not logic.
- Credits are not shown to sum to the debit, because the source does not check it.
