# MenuAnalyser core in Dafny

MenuAnalyser reads a spreadsheet that lists the display screens of food,
coffee and bar outlets, with the menu items and prices each screen shows. It
reports, per menu category, which screens show the standard menu and how the
others differ from it. This project models the logic of
`src/utils/excelParser.js` and proves properties of it:

- `categorizeMenuItem`: a fixed keyword table, searched case-insensitively and
  in order; the first category that matches wins. Module `Categories`.
- The row scan of `parseExcelFile`: one pass over the sheet with two pieces of
  scan state, the current outlet and the current screen. Every item row is
  pushed onto the list of its category in `menusByCategory`. Module `Scanner`:
  - `ParseRows` is the loop;
  - `OutletAfter`, `ScreenAfter`, `RowRecord`, `Records` and `Select` are the
    fold it is proved equal to.
- `analyzeMenus`. Module `Analysis`. Per category it:
  - groups the records into screens by `${outlet}-${screen}`;
  - turns each screen into a pattern of `item-price` tokens joined by `|`;
  - picks the most frequent pattern as the standard (`countBy`, then `maxBy`);
  - splits the screens into matching and discrepant ones;
  - diffs each discrepant screen position by position against the standard
    (the loop method `PositionalDiff`);
  - splits the standard back into `{name, price}` pairs.
  `AnalyzeMenus` is the loop that fills `analysis` one category at a time.
  `AnalyzeOneCategory` is the body it runs for each category.
  `AnalyzeCategory` is the function both are proved against.

Supporting modules:
- `Text`: `toLowerCase`, `includes`, `trim`, `split`, `join`.
- `Seqs`: distinct values in order of first appearance, the first maximum.
- `Wrappers`: `Option`.

The keys of `menusByCategory` and of `analysis` ("Hot Food", "Cold Food",
"Drinks", "Snacks", "Other") are the constructors of `Categories.Category`.

Cells are `Option<string>`. An absent cell (`null`) is `None`. A cell is
truthy when it is present and not the empty string. `String(null)` and
`${null}` both give `"null"` (`Scanner.CellText`).

Some facts about the code that the model keeps:
- An outlet header is any label that contains `Outlets:`, case-sensitively.
- The current screen is not reset when a new outlet starts.
- Screens are compared with the standard position by position only.
- Records are grouped per menu category, then per screen within a category.

Object key order: `Object.entries` lists keys in insertion order unless a key
is an array index. Every grouping key and every pattern contains `-`, so none
is an array index. The first-appearance order used by `GroupBy` and `CountBy`
is therefore the order the source sees.

## Model

| member | source | states |
|---|---|---|
| `Categories.FirstMatchSpec` | src/utils/excelParser.js:14-19 | The search returns the category of the first table entry whose keyword list matches the lower-cased name. It returns `Other` when no entry matches. |
| `Categories.CategorizeFirstMatch` | src/utils/excelParser.js:5-20 | Table order decides, for each of the five results, exactly when it is chosen. Hot Food: a Hot Food keyword matches. Cold Food: no Hot Food keyword matches and a Cold Food keyword does. Drinks and Snacks follow the same pattern. Other: no keyword matches. |
| `Categories.ChipsAreHotFood` | src/utils/excelParser.js:6-9 | A name containing "chips" in any case goes to Hot Food, never to Snacks. |
| `Text.ContainsLower` | src/utils/excelParser.js:59-64 | `s.toLowerCase().includes(w)` holds exactly when some substring of `s`, lower-cased, equals `w`. |
| `Text.JoinSplit` | src/utils/excelParser.js:117-118 | Joining the pieces of `split(sep)` gives back the original string, so split is injective. |
| `Text.SplitJoin` | src/utils/excelParser.js:144-145 | Splitting a join gives back the pieces when there is at least one piece and no piece contains the separator. |
| `Scanner.OutletClosed` | src/utils/excelParser.js:51-55 | An outlet's number is the cell beside its label. Its `isClosed` is true exactly when that cell's text contains "closed" in any case. |
| `Scanner.ScreenKind` | src/utils/excelParser.js:59-65 | A screen's name is the trimmed label. `isExternal` holds exactly when the label contains "external" or "outside", and `isRotating` exactly when it contains "rotat", in any case. |
| `Scanner.ParseRows` | src/utils/excelParser.js:36-85 | All five category lists exist, even for an empty grid. Each list holds, in row order, exactly the scan's records that `categorizeMenuItem` assigns to that category. |
| `Scanner.LastOutletHeader` | src/utils/excelParser.js:44-56 | Returns the index of the last outlet header among the rows, or -1 when there is none. No row after it is an outlet header. With no header the current outlet is `null`; otherwise it is the outlet that header started. |
| `Scanner.LastScreenHeader` | src/utils/excelParser.js:45-66 | Returns the index of the last screen header among the rows, or -1 when there is none. No row after it is a screen header. With no header the current screen is `null`; otherwise it is the screen that header started, whatever outlet headers came after it. |
| `Scanner.RecordedRow` | src/utils/excelParser.js:44-81 | A row is recorded exactly when all of these hold: its label and price cells are non-empty; its label does not contain "screen" in any case; an outlet header occurs at or before it; a screen header occurs strictly before it. A screen header row is therefore never recorded. |
| `Scanner.RecordContents` | src/utils/excelParser.js:69-81 | A recorded row's record holds the trimmed label and the price cell. Its outlet is the number of the last outlet header at or before the row. Its screen name and flags are those of the last screen header before the row. |
| `Scanner.OutletHeaderRecorded` | src/utils/excelParser.js:51-82 | Suppose an outlet header has a non-empty number cell, has no "screen" in its label, and follows a screen header. Then it is itself recorded as an item, under the outlet it has just started and the screen that was current before it. |
| `Scanner.RecordsAreRecordedRows` | src/utils/excelParser.js:47-83 | There are never more records than rows. A value is a record exactly when some row records it. |
| `Scanner.RecordsIndexed` | src/utils/excelParser.js:47-83 | The records come one per recording row, in row order: the returned row indices increase, record `t` is what row `idx[t]` records, and every row that records something is listed. |
| `Scanner.RowRecordOfPrefix` | src/utils/excelParser.js:47-83 | What a row records depends only on the rows up to and including it. |
| `Scanner.SelectMembers` | src/utils/excelParser.js:72-74 | A record is in category `c`'s list exactly when it was recorded and `categorizeMenuItem` gives `c` for its item. |
| `Scanner.SelectIndexed` | src/utils/excelParser.js:72-74 | Category `c`'s list is the subsequence of the records whose category is `c`: the returned indices increase, entry `t` is record `idx[t]`, and a record's index is listed exactly when its category is `c`. Items keep their row order within a list. |
| `Scanner.SelectCount` | src/utils/excelParser.js:72-74 | Category `c`'s list holds each record as often as the scan made it when `categorizeMenuItem` gives `c` for its item, and never otherwise. |
| `Scanner.SelectPartition` | src/utils/excelParser.js:72-81 | Each record is in exactly one of the five lists. Together the lists hold every record as many times as the scan made it. |
| `Scanner.ScanStep` | src/utils/excelParser.js:47-83 | Reading one more row runs its header checks, then its item check with the state those checks just set. |
| `Analysis.GroupByPartition` | src/utils/excelParser.js:97 | Grouping rules: keys are distinct; no group is empty; a group holds exactly the records with its `outlet-screen` key, so same-named screens of one outlet merge; every record's key has a group; there are no groups exactly when there are no records. |
| `Analysis.GroupIndexed` | src/utils/excelParser.js:97 | A group holds its key's records in their original order and with their repetitions: the returned positions increase, member `t` is the record at position `idx[t]`, and a record's position is listed exactly when its key is the group's key. |
| `Analysis.GroupOrder` | src/utils/excelParser.js:97 | Groups come in the order their keys first appear: for groups `i < j`, the first record with group `i`'s key comes before the first record with group `j`'s key. |
| `Analysis.PatternNotEmpty` | src/utils/excelParser.js:106 | A screen's pattern is never the empty string, so the truthiness test on the standard fails only when there is no standard. |
| `Seqs.FirstMax` | src/utils/excelParser.js:111 | `maxBy` returns a position holding the largest count, and every earlier position holds a strictly smaller count, so the first maximum is kept. |
| `Analysis.StandardIsMostFrequent` | src/utils/excelParser.js:110-111 | There is a standard exactly when there are patterns. It is one of them, no pattern occurs more often, and every pattern seen before its first occurrence occurs strictly less often, so ties go to the pattern seen first. |
| `Analysis.StandardOfScreen` | src/utils/excelParser.js:100-111 | A category with records has a standard, and that standard is the pattern of one of its own screens. |
| `Analysis.PositionalDiff` | src/utils/excelParser.js:117-130 | The loop produces the positional diff. It has at most `max(len)` entries, and it is empty exactly when the two token lists are equal. |
| `Analysis.DiffProperties` | src/utils/excelParser.js:120-130 | The entries are exactly those for the indices below `max(len)` where the tokens differ, with `'missing'` past the end of the shorter list. There are at most `max(len)` of them, and none exactly when the lists are equal. |
| `Analysis.DiffIndexed` | src/utils/excelParser.js:120-130 | There is exactly one entry per index below `max(len)` at which the tokens differ, in index order: the returned indices increase, entry `t` is the one for index `idx[t]`, and every differing index is listed. |
| `Analysis.SameTokens` | src/utils/excelParser.js:121-124 | Two token lists that agree at every index below `max(len)` are equal. |
| `Analysis.DiffSingle` | src/utils/excelParser.js:121-129 | Two lists of equal length that differ at exactly one index give exactly one entry, holding the standard token and the found token at that index. |
| `Analysis.ReportsNotEmpty` | src/utils/excelParser.js:116-139 | Every discrepant screen's report lists at least one difference, because splitting on the bar separator is injective. |
| `Analysis.FilterPartition` | src/utils/excelParser.js:115-116 | The two filters split the patterns. `matching` holds exactly the patterns equal to the standard and the rest hold exactly the others. Together they hold each pattern as often as the list does. |
| `Analysis.CategoryPresentIff` | src/utils/excelParser.js:110-116 | A category is in the analysis exactly when it has records. |
| `Analysis.ScreensPartition` | src/utils/excelParser.js:113-143 | Given the standard: `matching` holds exactly the screens with the standard pattern, and there is at least one. Every other screen has one discrepancy entry, in screen order, with at least one difference. Together the two lists account for every screen once. |
| `Analysis.UniformCategory` | src/utils/excelParser.js:113-116 | When every screen of a category has the same pattern, all screens match and there are no discrepancies. |
| `Analysis.StandardItemsRoundTrip` | src/utils/excelParser.js:106-147 | Splitting a screen's pattern into `{name, price}` pairs gives back its items and prices when none of them contains a hyphen or the bar separator. |
| `Analysis.HyphenatedNameMisread` | src/utils/excelParser.js:144-147 | If the record at position `i` of a screen is named `a-b`, and no name or price of that screen contains the bar separator, then entry `i` of that screen's `standardItems` is name `a` with price `b`. |
| `Analysis.StandardItemsOfCategory` | src/utils/excelParser.js:141-148 | When names and prices are plain, `standardItems` lists exactly the items and prices of one screen, and that screen is among the matching ones. Its index is returned. |
| `Analysis.AnalyzeOneCategory` | src/utils/excelParser.js:96-149 | The callback body for one category, with its diff loop, produces exactly that category's analysis, or nothing. |
| `Analysis.AnalyzeMenus` | src/utils/excelParser.js:92-153 | A category has an entry exactly when it has records. Each entry is that category's analysis. |

## Left out

- Reading the file: `XLSX.read`, picking the first sheet and `sheet_to_json` (src/utils/excelParser.js:24-33). This is an external library. The grid of cells is an input to `ParseRows`.
- The `try`/`catch` that rewraps library failures, and the `console.error` logging (src/utils/excelParser.js:86-89). Only the library can fail, and it is not modelled.
- The guard `!row || !Array.isArray(row)` (src/utils/excelParser.js:48). Every row of the model is a sequence, so the guard never fires.
- `Scanner.CellAt`: rows are taken to be as wide as the sheet, as `sheet_to_json` with `defval: null` makes them. A cell past the end of a short row reads as `null` (`None`), while JavaScript gives `undefined`, which a template literal renders as "undefined". So an outlet whose number cell is missing from a short row gets the same grouping key here as one whose number cell is `null`, where the source keeps the two apart.
- Non-text cells. Every cell is text or absent. With a numeric label, `row[1].includes` would throw. A numeric price would be rendered by JavaScript's number-to-string conversion.
- `Text.Lower`: does not model Unicode case mapping beyond ASCII, because `toLowerCase` follows Unicode tables that are not modelled. This changes results for some non-ASCII names: the Kelvin sign U+212A lower-cases to `k`, so "CHIC\u212AEN" is Hot Food in JavaScript but Other here, and "SUSHİ" lower-cases to "sushi" plus a combining dot, which is Cold Food in JavaScript but Other here.
- `parseExcelFile` is `async`. The model is synchronous and has no object identity: records and patterns are values.
- `analysis` is modelled as a map, without the insertion order of its keys. That order is always the fixed category order.
- src/components/MenuAnalyzer.jsx, src/components/AnalysisResults.jsx and src/app.jsx are not part of this model. They are user interface, file reading and presentation. They also call an `analyzeVenues` function and read `totalScreens` and a top-level `discrepancies` field, none of which `excelParser.js` provides.
