# Shopping list engine

A Dafny model of the logic in `script.js`, a browser shopping list. Once the
page's DOM plumbing is set aside, the remaining logic is:

- **Adding a product.** The typed name is trimmed and looked up in a product
  catalog. The lookup compares names with accents and case folded away. An
  unknown name becomes a placeholder item with unit `un`. A name already on
  the list must be confirmed. The quantity is asked for until an acceptable
  answer comes, then formatted as `"<n> <unit>"` or `"<int>,<dd> <unit>"`.
  The new item is appended and the list saved.
- **The autocomplete filter.** It returns the catalog entries whose folded
  name contains the folded query, or nothing for queries under two
  characters.
- **The click handler on the list.** The check button toggles an item's
  `completed` mark. The remove button deletes it. The + and - buttons step
  its quantity by 0.5 for `kg`, `L`, `ml` and `g` and by 1 for any other
  unit; a decrease applies only while the quantity is above one step. Every
  click on an item also re-reads its quantity text through the pattern
  `^([\d.,]+)\s*([a-zA-Z]+)$`, then re-formats and saves it. A text the
  pattern rejects, and a decrease from a value of one step or less, are
  neither re-formatted nor saved (script.js:249, script.js:262-267).
- **The clear button**, which empties the list and drops the stored
  snapshot.
- **The "all fetched" message** (`checkCompletion`).
- **The stored snapshot** (`saveList` / `loadList`).

Modules, one per concern:

- `Wrappers` – `Option`.
- `Text` – JavaScript whitespace and `trim`, name folding (`removeAccents`
  after `toLowerCase`), `includes`.
- `Catalog` – the product lookup of `addProduct` and the suggestion filter.
- `Quantity` – `parseFloat` on decimal notation, the display format, the
  pattern that re-reads it, the unit step, and the quantity prompt loop.
- `Items` – the list item and the completion signal.
- `Snapshot` – the record written per item, and the save and load of the
  whole list.
- `ShoppingList` – a class holding the items, the stored snapshot and the
  message flag, with one method per handler.

Quantities are exact rationals (`real`), not IEEE doubles. `toFixed(2)`
rounds to the nearest hundredth, with ties going up. JavaScript's `NaN` is a
value of its own, because a display text can match the pattern yet hold no
digit: `". un"` is re-read as `NaN`, so + writes `"NaN un"` and - does
nothing (`Quantity.DotReadsAsNaN`).

Four behaviours of the code are kept as written:

- Increasing `"1,50 kg"` gives `"2 kg"`: whole values are written without
  decimals (script.js:271-273, `Quantity.IncreaseToWhole`).
- The check and remove branches of the click handler do not return, so the
  re-format always runs afterwards. After a removal it works on the detached
  item and saves the list unchanged. After a check on a canonical text it
  rewrites the same text.
- An answer such as `0.001` passes the `> 0` test but is shown as
  `"0,00 un"` (`Quantity.TinyAnswerShowsZero`). A new item's value is
  always positive, but the value it shows is positive only for answers of
  at least 0.005 (`Quantity.ShownPositive`).
- `loadList` marks as a placeholder every item whose image is the
  placeholder URL, so saving and then loading gives a list back exactly when
  those items were already marked (`Snapshot.SaveLoadRoundTrip`).

## Model

| member | source | states |
|---|---|---|
| Text.SkipSpaces | script.js:116 | the index returned is the first non-whitespace position at or after the start, everything skipped being whitespace |
| Text.TrimSpec | script.js:116-117 | `trim` yields a slice of the input surrounded only by whitespace, starting and ending with non-whitespace, and empty exactly when the input is all whitespace |
| Text.Trim | script.js:116 | trimming never lengthens; `TrimSpec` states what it removes |
| Text.TrimIdempotent | script.js:116 | trimming a trimmed name changes nothing |
| Text.FoldChar | script.js:10-12 | an upper-case ASCII letter becomes its lower-case letter, every other ASCII character stays as it is, no result is upper-case ASCII, and a character that is not a combining mark does not become one |
| Text.Fold | script.js:10-12 | the folded text is never longer than its input |
| Text.FoldSingle | script.js:10-12 | one character folds to its folded form, or to nothing when it is a combining mark U+0300..U+036F; with `FoldAppend` this determines `Fold` on every text |
| Text.FoldClean | script.js:10-12 | a folded text holds no upper-case ASCII letter and no combining mark |
| Text.FoldIgnoresCase | script.js:123 | `"ARROZ"` and `"arroz"` fold alike, to `"arroz"` |
| Text.FoldIgnoresAccents | script.js:10-12 | `"Feijão"` precomposed and `"feijão"` with a combining tilde both fold to `"feijao"` |
| Text.FoldAppend | script.js:10-12 | folding distributes over concatenation |
| Text.FoldIdempotent | script.js:10-12 | folding an already folded name changes nothing, so comparing folded names is consistent on both sides |
| Text.Contains | script.js:98 | `includes` holds exactly when the query occurs at some position of the name |
| Catalog.FindIndex | script.js:122-124 | `find` returns the first index whose folded name equals the key, and none exactly when no entry's folded name equals it |
| Catalog.Resolve | script.js:122-134 | the new item is a placeholder exactly when no catalog name folds equal to the trimmed input; a placeholder keeps the typed name, the placeholder image and unit `un`; otherwise the name, image and unit are those of the first matching entry |
| Catalog.Lookup | script.js:122-124 | none exactly when no catalog name folds equal to the name; otherwise the first entry whose folded name equals the folded name |
| Catalog.LookupOfFolded | script.js:122-124 | looking up a folded name finds the same entry as the raw name |
| Catalog.Matching | script.js:97-99 | the filter never yields more entries than the catalog holds |
| Catalog.MatchingMembers | script.js:97-99 | the filter keeps exactly the entries whose folded name contains the key |
| Catalog.MatchingAppend | script.js:97-99 | filtering a concatenation concatenates the filtered parts, so catalog order is kept |
| Catalog.Suggestions | script.js:89-99 | empty when the folded query is shorter than 2; otherwise an entry is suggested iff its folded name contains the folded query |
| Catalog.SuggestionsInCatalogOrder | script.js:97-101 | suggestions of `a + b` are those of `a` followed by those of `b` |
| Catalog.CatalogNameResolves | script.js:122-134 | a catalog name that trimming leaves intact resolves to the first entry folding alike, never to a placeholder |
| Catalog.ChosenSuggestionIsInCatalog | script.js:104-106 | picking a suggestion whose name has no surrounding whitespace adds a catalog product, never a placeholder |
| Quantity.DigitRun | script.js:167 | the run of decimal digits from a position ends at the first non-digit |
| Quantity.DecimalValue | script.js:167 | the value of `digits.digits` lies between its whole part and the next integer |
| Quantity.ParseFloat | script.js:167 | `parseFloat` of a text with no minus sign is NaN or non-negative |
| Quantity.ReplaceFirstComma | script.js:167 | `replace(',', '.')` keeps the length of the text; the two lemmas below say which character changes |
| Quantity.ReplaceWithoutComma | script.js:167 | `replace(',', '.')` leaves a comma-free text unchanged |
| Quantity.ReplaceAtFirstComma | script.js:167 | `replace(',', '.')` turns only the first comma into a dot |
| Quantity.ReplaceKeepsNumeric | script.js:251 | reading the first comma as a dot keeps a text within `[\d.,]` |
| Quantity.IntToString | script.js:179 | a whole number is written as a non-empty run of decimal digits, with no leading zero: a positive number never starts with `0`, and only a single digit can be `0` |
| Quantity.IntToStringValue | script.js:179 | the digits written for a whole number are worth that number |
| Quantity.Hundredths | script.js:180 | `toFixed(2)` writes the nearest whole number of hundredths, ties going up |
| Quantity.IntegralIsWhole | script.js:178 | every integer passes the `% 1 === 0` test of `IsIntegral`, and its floor is itself |
| Quantity.FixedTwoShape | script.js:180 | `toFixed(2)` with its dot written as a comma ends in a comma and two digits, and is made of `[\d.,]` only |
| Quantity.FixedTwoValue | script.js:180 | that numeral, its comma read back as a dot, parses to the value rounded to hundredths |
| Quantity.FormatQuantity | script.js:178-180 | the display text is a non-empty `[\d.,]` numeral, one space and the unit |
| Quantity.TwoDigitsValue | script.js:180 | the two decimals written for `c` hundredths are worth `c / 100` |
| Quantity.NumericRun | script.js:247 | the run of `[\d.,]` from a position ends at the first character outside the class |
| Quantity.MatchQuantity | script.js:247 | a match splits the text into a non-empty `[\d.,]` run, whitespace and a non-empty run of ASCII letters, and returns the first and last |
| Quantity.MatchesShape | script.js:247 | every text of that shape matches, capturing exactly its number part and its unit |
| Quantity.ParseDisplay | script.js:247-252 | a re-read gives a letters-only unit and a value that is NaN or non-negative |
| Quantity.NumberHasNoSign | script.js:247-251 | the captured number part holds no minus sign, even once its comma is read as a dot |
| Quantity.Step | script.js:255 | the step is 0.5 or 1 |
| Quantity.Stepped | script.js:257-264 | + moves the quantity up by exactly one step, - down by exactly one step, no button leaves it |
| Quantity.AdjustText | script.js:247-275 | a text the pattern rejects is never rewritten; + and no button always rewrite a re-read text; - rewrites it exactly when it reads as a number above one step |
| Quantity.DotReadsAsNaN | script.js:247-273 | `". un"` matches the pattern and reads as NaN; + writes `"NaN un"` and - does nothing |
| Quantity.DisplayRoundTrip | script.js:178-180 | the display text of any `v >= 0` with a letters-only unit reads back (pattern, comma to dot, `parseFloat`) as that unit and the value shown: `v` when whole, `v` rounded to hundredths otherwise |
| Quantity.ShownPositive | script.js:178-180 | the value shown is positive exactly for values of at least 0.005 |
| Quantity.ShownIsHundredths | script.js:178-180 | the value shown is a multiple of 0.01, and a multiple of 0.01 is shown as itself |
| Quantity.AdjustDisplayed | script.js:247-275 | a click on the display text of `v` writes the text of the shown value stepped up, stepped down or kept, and writes nothing on a decrease from a shown value of at most one step |
| Quantity.ReformatIdempotent | script.js:247-273 | re-formatting the text of a multiple of 0.01 gives the same text |
| Quantity.KeepRewritesCanonical | script.js:243-275 | a click that presses no quantity button writes a canonical text back unchanged |
| Quantity.IncreaseAlwaysApplies | script.js:257-259 | the + button always rewrites a canonical text |
| Quantity.AdjustKeepsCanonical | script.js:255-273 | a step leaves a canonical text alone or gives another canonical text, so a positive quantity stays positive |
| Quantity.SteppedHundredths | script.js:257-264 | a step of 0.5 or 1 keeps a multiple of 0.01 a multiple of 0.01 |
| Quantity.IncreaseThenDecrease | script.js:257-268 | + adds exactly one step, and - after it gives back the text it started from |
| Quantity.CanonicalIsPositive | script.js:249-251 | a canonical text reads back as a positive value |
| Quantity.NewQuantityCanonical | script.js:178-180 | the text of a positive multiple of 0.01 with a letters-only unit is canonical |
| Quantity.DecreaseAtOneStep | script.js:261-267 | at a shown value of at most one step, - writes nothing |
| Quantity.DecreaseStopsAtOneStep | script.js:261-267 | `"0,50 kg"` and `"1 un"` are left as they are by the - button |
| Quantity.DecreaseToOneStep | script.js:261-267 | the test is on the value before the step: - on `"1 kg"` gives `"0,50 kg"`, a value of exactly one step |
| Quantity.IncreaseToWhole | script.js:271-273 | + on `"1,50 kg"` gives `"2 kg"`, and - on `"2 kg"` gives `"1,50 kg"` |
| Quantity.ReadAnswer | script.js:162-174 | a cancelled or blank answer is 1; any other answer is accepted exactly when, its first comma read as a dot, `parseFloat` gives a positive number, and then it is that number; so every accepted answer is positive |
| Quantity.AnswerParse | script.js:162-174 | a non-blank, comma-free answer is accepted exactly when `parseFloat` reads a positive value, and is that value |
| Quantity.CommaOrDot | script.js:166-167 | an answer written with a comma is read as the same answer written with a dot |
| Quantity.TinyAnswerShowsZero | script.js:168-180 | the answer `"0.001"` is accepted as 0.001, and its display text is `"0,00 un"` |
| Quantity.FirstAccepted | script.js:158-175 | the loop ends at the first accepted answer; all answers before it are rejected |
| Quantity.ChosenQuantity | script.js:158-175 | the quantity the loop settles on is positive |
| Quantity.ChosenAt | script.js:158-175 | after rejected answers, the first accepted answer is the one chosen |
| Quantity.NoneChosen | script.js:158-175 | when every answer is rejected, no quantity is chosen |
| Quantity.AskOnce | script.js:160-174 | one turn accepts exactly the answers `ReadAnswer` accepts, with the value it reads |
| Quantity.PromptQuantity | script.js:155-175 | the loop returns the quantity chosen by the first accepted answer, after asking up to and including it; if the answers run out first, none is chosen |
| Items.CountCompleted | script.js:16 | the completed count is at most the item count, and equal to it exactly when every item is completed |
| Items.AllFetched | script.js:14-18 | the message shows exactly when the list is non-empty and every item is completed; never for the empty list |
| Items.SameMarksSameSignal | script.js:14-18 | the signal depends only on the `completed` flags |
| Snapshot.TrailingLetters | script.js:36-37 | the saved unit is the longest run of ASCII letters ending the quantity text |
| Snapshot.TrailingLettersAfter | script.js:36-37 | after a non-letter, the trailing letters are exactly the letters that follow it |
| Snapshot.SavedUnitOfQuantity | script.js:36-37 | the unit saved for a formatted quantity is the unit it was formatted with |
| Snapshot.ToRecord | script.js:35-46 | the saved unit is letters only, and loading the record gives the item back, with the placeholder flag set when the image is the placeholder URL |
| Snapshot.FromRecord | script.js:57 | a loaded item is a placeholder when its image is the placeholder URL or its record says so |
| Snapshot.Save | script.js:28-49 | one record per item |
| Snapshot.Load | script.js:52-57 | one item per record |
| Snapshot.SaveLoadRoundTrip | script.js:29-62 | save then load gives back every item, all fields and in order, exactly when every item with the placeholder image is marked as a placeholder |
| Snapshot.LoadSaveLoad | script.js:52-62 | a loaded list is placeholder-consistent and survives another save and load |
| ShoppingList.NewItem | script.js:177-205 | the new item is uncompleted, and its quantity text reads back as the shown value and the unit |
| ShoppingList.Clicked | script.js:224-277 | a click keeps the name, image and placeholder flag; flips the mark exactly for the check button; keeps the text when it is not rewritten |
| ShoppingList.ClickKeepsCanonical | script.js:224-277 | a click keeps an item's quantity text canonical |
| ShoppingList.CheckTwiceRestores | script.js:230-234 | the check button flips the mark, and two checks give the item back unchanged |
| ShoppingList.ShoppingList.constructor | script.js:1-6 | the page starts with no items and the message hidden, whatever the storage holds |
| ShoppingList.ShoppingList.CheckCompletion | script.js:14-24 | the message flag is set to the completion signal of the current items |
| ShoppingList.ShoppingList.SaveList | script.js:28-49 | the stored snapshot becomes the records of the items in list order |
| ShoppingList.ShoppingList.LoadList | script.js:52-85 | the items become those rebuilt from the stored snapshot (none when absent), and the message is updated |
| ShoppingList.ShoppingList.IsDuplicate | script.js:137-143 | the scan reports a duplicate exactly when some listed name folds equal to the new name |
| ShoppingList.ShoppingList.AddProduct | script.js:115-210 | a blank name, a declined duplicate or unanswered prompts leave list and snapshot unchanged; otherwise exactly one uncompleted item, built from the lookup and the chosen quantity, is appended and saved |
| ShoppingList.ShoppingList.Toggle | script.js:230-234 | only the clicked item's `completed` flag flips; the list is saved and the message updated |
| ShoppingList.ShoppingList.Remove | script.js:236-240 | only the clicked item is deleted, the others keeping their order; the list is saved and the message updated |
| ShoppingList.ShoppingList.SetQuantityText | script.js:275-276 | only the clicked item's quantity text changes, the list is saved and the message stays correct |
| ShoppingList.ShoppingList.Click | script.js:224-278 | a click on no item changes nothing; remove deletes the item and saves; any other click replaces only that item by its clicked form and saves exactly when the check button was pressed or the quantity text was rewritten |
| ShoppingList.ShoppingList.ClearList | script.js:280-284 | the snapshot is removed, the list emptied and the message hidden |

## Left out

- DOM rendering is not modelled: the `innerHTML` templates, `classList`, `querySelector` and element creation. The list is the sequence of items. HTML injection through product names therefore falls outside the model.
- The browser's resolution of `img.src` to an absolute URL is not modelled. The stored image is the URL as given.
- Event wiring is not modelled (script.js:214-222, script.js:286-293). This includes Enter-to-add, the input listener and the document click that clears the suggestions. Only the handlers' logic is kept.
- Clearing the input field and the suggestion list after an add or a declined duplicate is not modelled. Both are page state outside the item list.
- `alert`, `prompt` and `confirm` are not modelled as dialogs. The user's answers are method inputs: a `bool` for `confirm`, a sequence of answers for `prompt`.
- Quantity.PromptQuantity: the source keeps prompting for ever while answers are rejected. The model reads a finite sequence of answers and returns no quantity when it runs out, and `ShoppingList.ShoppingList.AddProduct` then reports `AwaitingQuantity` and changes nothing.
- `localStorage` and JSON are not modelled. The snapshot is a sequence of records, so malformed JSON and records with missing fields cannot arise.
- Text.Fold: `normalize("NFD")` plus stripping U+0300..U+036F is modelled for ASCII and the precomposed Latin-1 letters only. Other scripts, and UTF-16 surrogate pairs, are not.
- Quantity.ParseFloat: exponents and `Infinity` are not parsed. On re-read display texts this changes nothing, since the pattern admits only digits, `.` and `,`. On prompt answers it does: `AddProduct` reads the answer `"1e3"` as 1 where the browser reads 1000, and it rejects `"Infinity"` and asks again where the browser accepts it and shows `"Infinity un"`.
- Quantity.FormatQuantity: IEEE-754 effects are not modelled. These are rounding error in `toFixed`, and exponent notation of `toString` for values of 10^21 and more.
- Quantity.FormatQuantity: negative values are not modelled. The display pattern admits no sign, so they cannot reach it.
- The catalog `productsDB` is not part of this model. It is a parameter.
