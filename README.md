# Inventory ledger of the Suassuna Fernandes stock app

This is a model of `app.py`, a Streamlit application that keeps a materials
inventory in three worksheets of one Google spreadsheet:

- `estoque`, the stock table. It has one row per material: Código, Material,
  Qtd, Mínimo and Categoria.
- `hist_entrada`, the inbound journal.
- `hist_saida`, the outbound journal.

On the entry and withdrawal pages the user scans or types a material code.
The page strips it and upper-cases it, then looks it up by exact match; the
first matching row wins. The management page picks a row from a selectbox
instead, and never normalises a code. Four
handlers change the spreadsheet:

- **Salvar Registro** on the entry page. It replenishes a known code or
  registers a new one, and journals the entry.
- **Confirmar Saída** on the withdrawal page. It debits the first matching row
  and journals the withdrawal.
- **Salvar Alterações** on the management page. It overwrites the chosen row's
  code, name, category and minimum, with no check that the new code is free.
- **Excluir Item Permanentemente** on the management page. It drops every row
  holding the chosen code and leaves the journals as they are.

The overview paints a row red when `Qtd <= Mínimo`.

Modules:

- `Text` (`text.dfy`) holds Python's `str.strip()` and `str.upper()`, and the
  `"code - material"` selectbox label with the `split(" - ")[0]` that
  recovers the code from it.
- `Catalog` (`catalog.dfy`) holds the stock table as a `seq<Item>` and the
  pure rules over it:
  - lookup and the entry form's pre-fill;
  - replenish or register, debit, edit and delete;
  - the category fallback;
  - the critical-row style;
  - the sum of balances.
- `Journal` (`journal.dfy`) holds the two journals and `Reconciled`. That
  predicate says the journals account for every row's balance.
- `Inventory` (`inventory.dfy`) holds the class `Ledger`. Its three `seq`
  fields are the three worksheets. Its methods are the four handlers above,
  each changing those fields in place.

Three behaviours of the source are easy to miss:

- The material name is upper-cased but not stripped (app.py:75).
- The management page stores the new code exactly as typed. It is neither
  stripped nor upper-cased (app.py:152 and app.py:158).
  `Catalog.LowerCaseCodeUnreachable` shows what follows: a row whose new code
  holds a lower-case letter can never be found by the entry or withdrawal
  pages again.
- The rename does not check that the new code is free.
  `Catalog.EditedCanDuplicateCode` shows it producing two rows with one code.

Categories are stored as text, and any text can sit in the Categoria column.
The fixed set only constrains what the forms write.

## Model

| member | source | states |
|---|---|---|
| Text.Upper | app.py:75 | `str.upper()` keeps the length and maps each character on its own; no ASCII lower-case letter survives |
| Text.UpperIdempotent | app.py:62 | upper-casing an upper-cased string changes nothing |
| Text.Strip | app.py:62 | `str.strip()` is the slice of the input between a whitespace-only prefix and a whitespace-only suffix; it has no whitespace at either end, and it is "" exactly when the input is all whitespace |
| Text.Normalize | app.py:62 | a scanned code after `.strip().upper()` is the upper-cased slice between whitespace-only ends: empty exactly when the input is blank, no lower-case ASCII, no whitespace at the ends |
| Text.NormalizeIdempotent | app.py:108 | normalising a normalised code changes nothing, so a stored normalised code is found again by the same lookup |
| Text.FindSeparator | app.py:148 | finds the first position at or after `from` where `" - "` starts, or reports that there is none |
| Text.Label | app.py:147 | the option shown for a row is its code, then `" - "` right after the code, then its name |
| Text.BeforeSeparator | app.py:148 | `split(" - ")[0]` is the prefix of the label up to its first `" - "`: no separator starts before the cut, one starts at the cut unless the label holds none, and then it is the whole label |
| Text.LabelRoundTrip | app.py:147-148 | splitting `code + " - " + material` gives back `code` when the code holds no separator and does not end with `" -"` |
| Text.LabelSplitTruncatesTrailingDash | app.py:147-148 | the label of code `"A -"` splits to `"A"` |
| Catalog.CategoryIndex | app.py:70 | the selectbox position of a stored category is its place in `CATEGORIAS`, or 0 when it is none of them |
| Catalog.CategoryRoundTrip | app.py:76 | a category written by a form reads back as the same choice |
| Catalog.FirstIndex | app.py:66-67 | the first row whose code is exactly `code`; none exactly when no row holds it |
| Catalog.FirstIndexOfUnique | app.py:66-67 | with unique codes, looking up a row's code finds that row |
| Catalog.Lookup | app.py:108-111 | the row the withdrawal page selects: a blank code selects nothing; otherwise the first row holding the normalised code, and only when one exists |
| Catalog.Prefill | app.py:64-71 | the entry form knows a code exactly when it is non-empty and held; it then shows the first such row's name, category position and minimum, and otherwise blanks with minimum 5 |
| Catalog.Replenished | app.py:86-87 | every row with the code gains `qty` and takes the new minimum; code, name and category stay; other rows are untouched |
| Catalog.RegisteredFindsKnown | app.py:85-87 | saving a known code keeps its first row where it was, with the old balance plus `qty` and the new minimum |
| Catalog.RegisteredFindsNew | app.py:88-90 | saving an unknown code appends exactly one new row after all the old ones, and lookup finds it there |
| Catalog.Registered | app.py:84-90 | a saved entry keeps every existing row in place with its code and leaves the rows of other codes untouched; the code is then held, and the table grows by one row exactly when the code was new |
| Catalog.RegisterTwice | app.py:83-90 | registering a code and saving it again leaves one row with the summed quantity, the first name and category and the second minimum |
| Catalog.RegisteredKeepsUnique | app.py:83-90 | a saved entry keeps codes unique |
| Catalog.RegisteredKeepsNonNegative | app.py:79-90 | a saved entry with positive quantity keeps every balance non-negative |
| Catalog.Debited | app.py:121 | a withdrawal lowers the balance of the row at the found position by `qty`; every other field and every other row stays |
| Catalog.DebitedKeepsInvariants | app.py:117-121 | a withdrawal no larger than the row's balance keeps balances non-negative and codes unique |
| Catalog.Edited | app.py:157-159 | the edited row takes the new code, name, category and minimum and keeps its balance; every other row stays |
| Catalog.EditedKeepsUnique | app.py:157-159 | renaming a row to a code no other row holds keeps codes unique |
| Catalog.EditedCanDuplicateCode | app.py:157-159 | renaming row B2 to A1 turns a table with unique codes into one without |
| Catalog.LowerCaseCodeUnreachable | app.py:152 | a code stored with a lower-case letter differs from every normalised input |
| Catalog.Remove | app.py:164 | deletion drops exactly as many rows as hold the code, and afterwards none holds it |
| Catalog.Count | app.py:164 | the number of rows holding a code is positive exactly when the table holds it |
| Catalog.RemoveConcat | app.py:164 | deletion filters each part of the table on its own, so the surviving rows keep their order |
| Catalog.RemoveKeepsNothingNew | app.py:164 | every row left after deletion was in the table |
| Catalog.RemoveKeepsOthers | app.py:164 | every row with another code survives deletion |
| Catalog.RemoveAbsent | app.py:164 | deleting a code no row holds changes nothing |
| Catalog.RemoveKeepsNonNegative | app.py:164 | deletion keeps balances non-negative |
| Catalog.RemoveKeepsUnique | app.py:164 | deletion keeps codes unique |
| Catalog.TotalReplenished | app.py:86 | replenishment raises the total stock by `qty` once for every row holding the code |
| Catalog.TotalRegistered | app.py:83-90 | with unique codes a saved entry raises the total stock by exactly the quantity saved |
| Catalog.TotalDebitedEdited | app.py:121 | a withdrawal lowers the total stock by exactly the quantity issued, and an edit leaves the total unchanged |
| Catalog.IsCritical | app.py:49 | a row is red below its minimum and also at the minimum itself, and only then |
| Catalog.Highlight | app.py:48-50 | every cell of a row is styled `color: red` exactly when `Qtd <= Mínimo`, and `color: white` exactly when not |
| Catalog.DebitedKeepsCritical | app.py:49 | a withdrawal never clears a red row, and it changes no row but the one withdrawn from |
| Catalog.LabelledCode | app.py:147-148 | the code the management page parses back from the chosen option is a prefix of the row's code, possibly a shorter one |
| Catalog.LabelledCodeFinds | app.py:147-149 | with unique codes free of the separator and of a trailing `" -"`, the split label selects the chosen row |
| Catalog.LabelledCodeMisses | app.py:147-149 | for the one-row table coded `"A -"`, the split label gives a code the table does not hold |
| Catalog.LabelledCodeSelectsOther | app.py:147-149 | with rows coded `"A"` and `"A - B"`, choosing the second selects the first, since its option splits to `"A"` |
| Catalog.SelectedCode | app.py:147-149 | the chosen row's own code is always held, and with unique codes it selects exactly the chosen row |
| Journal.KindName | app.py:84 | the Tipo text is "Novo Cadastro" exactly for a new registration and "Reposição" exactly for a replenishment |
| Journal.InflowAbsent | app.py:97-98 | a code no inbound record names has received nothing |
| Journal.OutflowAbsent | app.py:126-127 | a code no outbound record names has issued nothing |
| Journal.RegisteredReconciles | app.py:83-99 | a saved entry and its inbound record keep the journals reconciled with the stock table |
| Journal.DebitedReconciles | app.py:120-128 | a withdrawal and its outbound record keep the journals reconciled with the stock table |
| Journal.RemoveUnreconciles | app.py:163-165 | deleting a code that any inbound record names leaves the journals unreconciled |
| Inventory.Ledger.constructor | app.py:16-23 | an empty spreadsheet is reconciled |
| Inventory.Ledger.Save | app.py:82-99 | quantity below 1 is rejected, and so is a blank code or an empty name; otherwise a known code is replenished and an unknown one appended, one inbound record of the right kind is appended, and the reconciliation and non-negative balances are kept |
| Inventory.Ledger.Withdraw | app.py:110-128 | a blank or unknown code, a quantity outside 1 up to the balance, and an empty destination are each rejected; otherwise the first matching row loses `qty`, one outbound record with that row's name is appended, and the reconciliation and non-negative balances are kept |
| Inventory.Ledger.Edit | app.py:156-160 | a choice inside the table always succeeds, and only a choice past its end is rejected; the first row holding the chosen code takes the new code, name, category and minimum and keeps its balance; with unique codes that row is the chosen one; the journals are untouched |
| Inventory.Ledger.Delete | app.py:163-165 | a choice inside the table always succeeds, and only a choice past its end is rejected; every row holding the chosen code is dropped and the others keep their order; the journals are untouched; unique codes and non-negative balances are kept |
| Inventory.ScannedCodeNormalizes | app.py:62 | the scan `" a1 "` is looked up as `"A1"` |
| Inventory.GlovesScenario | app.py:79-121 | registering 10 gloves with minimum 5 and issuing 7 leaves 3; a further withdrawal of 5 is refused; one outbound record exists |

## Left out

- The Streamlit pages, widgets, messages and `st.rerun()`: only what the
  handlers do to the three worksheets is modelled.
- Google Sheets I/O (`conn.read` and `conn.update`): each worksheet is a field
  of `Ledger`. Each run re-reads the sheets, so positions and pandas index
  labels coincide, and `iloc[idx]` at app.py:112 is the row at position `idx`.
- The clock: the `"%d/%m/%Y %H:%M:%S"` timestamp, taken from the server's
  local clock minus three hours (app.py:95 and app.py:124), is a `Timestamp`
  argument supplied by the caller.
- The CSV export (app.py:55-56) and the newest-first history tables
  (app.py:138-140) only display data.
- Number widths and dtypes: quantities and minimums are unbounded integers,
  and `int(item['Mínimo'])` is taken as exact. `.astype(str)` is the identity
  on the stored codes, which are strings.
- Text.Upper: covers ASCII and Latin-1 only. The multi-character mappings
  such as ß to "SS" are not modelled, and neither are letters beyond U+00FF
  other than ÿ and µ.
- Inventory.Ledger.Save: the number input's lower bound of 1 (app.py:79) is
  modelled as an `OutOfBounds` rejection. The widget cannot submit such a
  value.
- Inventory.Ledger.Withdraw: the number input's bounds 1 to `Qtd`
  (app.py:117) are modelled as an `OutOfBounds` rejection. When `Qtd` is below
  1 the page raises an exception instead of drawing the form, and the model
  rejects every quantity.
- Inventory.Ledger.Edit and Inventory.Ledger.Delete: the model accepts a row
  whose stored category is outside `CATEGORIAS`. There `CATEGORIAS.index` at
  app.py:153 raises, so the form holding both the save and the delete button
  (app.py:151-163) is never drawn.
- Inventory.Ledger.Edit and Inventory.Ledger.Delete: they take the chosen
  row's code from the row itself (`Catalog.SelectedCode`), not from the
  split label. See Findings. A choice past the end of the table stands for
  the empty table, where the page draws no form; it is rejected as `NotFound`.
- `Journal.Reconciled` is an invariant that Save and Withdraw preserve.
  The source does not enforce it. Edit and Delete can break it, as
  `Journal.RemoveUnreconciles` shows.

## Findings

| source | as written | input that shows it | evidently intended | confidence | as-written member | corrected member |
|---|---|---|---|---|---|---|
| app.py:147-149 | the chosen row's code is recovered with `sel.split(" - ")[0]` from the label `code + " - " + material` | a row coded `"A -"` named `"LUVA"` is offered as `"A - - LUVA"`, which splits to `"A"`; no row holds `"A"`, so `.iloc[0]` at app.py:149 fails and the row can be neither edited nor deleted (a code that itself holds `" - "` is cut the same way: with rows `"A"` and `"A - B"`, choosing `"A - B - MARTELO"` edits or deletes row `"A"`, as `Catalog.LabelledCodeSelectsOther` shows) | the code of the row the user chose | not executed | Catalog.LabelledCodeMisses | Catalog.SelectedCode |
