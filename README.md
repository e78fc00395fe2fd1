# NAICS 2022 hierarchy builder, modelled in Dafny

This project models `tools/NAICS_tools.py`. That file turns the NAICS 2022
descriptions table (columns Code, Title, Description) into a nested tree of
nodes for a tree-select widget. The model has four parts:

- **Cleanup** (`NaicsCleanUp`). The Code column is mixed: the three
  composite sector labels "31-33", "44-45" and "48-49", digit strings,
  cells that pandas already holds as 64-bit integers, and possibly missing
  cells (NaN). Cleanup maps each composite label to its first sector
  (31, 44, 48) and converts the column to 64-bit integers. The first cell
  that does not convert is an error: text that is not a decimal number,
  a number above the 64-bit maximum, or a missing cell. Then every
  trailing capital 'T' is removed from each title, and descriptions stay as
  they are. Two forms are given:
  - `CleanUpDescriptions`, a function from the raw rows to the cleaned rows
    or the error;
  - `Frame.CleanUp`, a class holding one `seq` per column. It reassigns
    the caller's columns in place, as the source does through its alias
    `df_clean = df`.
- **Decimal text** (`Decimal`). This module models `int(str)` on plain
  digit strings and `str(int)`. Both are needed for the column conversion
  and for the "<code>: <title>" labels.
- **Children** (`NaicsChildren`). A code's child range is `[10k, 10k+10)`
  in general. Three sectors span several two-digit codes (31 gives
  `[310, 340)`, 44 gives `[440, 460)`, 48 gives `[480, 500)`), and the
  synthetic root 0 gives `[0, 100)`. `GetChildren` keeps the rows in that
  range in table order. It fills missing values with "" and relabels each
  title as "<code>: <title>". `GetChildrenKeys` lists the children's codes.
- **Tree** (`NaicsTree`). `CreateStreamlitTree` attaches a children entry
  to a node exactly when the node has children and its level is below
  `maxLevel`, and then recurses into each child. `GetNaicsTree` is cleanup
  followed by construction from a fresh default root (code 0,
  "NAICS 2022"), with the table given as a parameter.

A node is a datatype whose children entry is either absent or a list of
nodes. The widget's field `label` is called `labelText`, because `label` is
a reserved word in Dafny.

The source's own comment on cleanup (line 11) says one trailing 'T' is
removed. The code at line 23 calls `rstrip('T')`, which removes all of
them. The model follows the code.

Child ranges use unbounded integers, as the source does. At the root,
`key_val` is the literal 0 (line 63). Below the root it is a value from
`to_dict(orient='records')` (line 94), which pandas hands back as a native
Python int. So the products at lines 46-47 are unbounded Python arithmetic.

The source writes the children list into the node dict it is handed and
returns that same dict. Its default node is a single dict created once
(lines 61-65) and shared by every call that does not pass a node. The pure
model returns the updated node as a value. The sharing is modelled
separately by the class `SharedDefaultRoot` (see Findings).

## Model

| member | source | states |
|---|---|---|
| Decimal.ParseNat | tools/NAICS_tools.py:20 | integer conversion of a text cell succeeds exactly on a non-empty all-digit string, and on a string without a superfluous leading zero the value renders back to that same string |
| Decimal.NatToString | tools/NAICS_tools.py:49 | `str` of a natural number is a canonical digit string (no leading zero) whose decimal value is the number |
| Decimal.ParseRendered | tools/NAICS_tools.py:20 | parsing the rendering of n gives n back |
| Decimal.RenderParsed | tools/NAICS_tools.py:49 | a canonical digit string is the rendering of its own value |
| Decimal.RenderInjective | tools/NAICS_tools.py:49 | distinct natural numbers render differently |
| Decimal.IntToString | tools/NAICS_tools.py:49 | `str` of a non-negative code is a canonical digit string with the code's value; of a negative code, '-' followed by the canonical digits of its magnitude |
| Decimal.IntRenderInjective | tools/NAICS_tools.py:49 | distinct codes, negative ones included, get distinct label prefixes |
| Decimal.RenderDropLast | tools/NAICS_tools.py:46-47 | for n >= 10, dropping the last digit of str(n) gives str(n / 10), the text form of the parent step |
| Decimal.AtMostTwoDigits | tools/NAICS_tools.py:42-44 | str(n) has at most two digits exactly when n < 100 |
| NaicsCleanUp.CleanCodeValues | tools/NAICS_tools.py:17-20 | "31-33", "44-45" and "48-49" become 31, 44 and 48; an integer cell is kept; a missing cell fails; any other text converts exactly when it is a non-empty digit string whose value fits in 64 bits, with that value, and otherwise fails as malformed or as an overflow, carrying the text |
| NaicsCleanUp.AsIntColumn | tools/NAICS_tools.py:20 | the column converts exactly when every cell converts; the result has the column's length and each entry is its cell's value; on failure the error is that of the first bad cell |
| NaicsCleanUp.RStripT | tools/NAICS_tools.py:23 | the result is a prefix of the title, does not end in 'T', and only 'T's were removed |
| NaicsCleanUp.RStripTUnique | tools/NAICS_tools.py:23 | any prefix that does not end in 'T' and is followed only by 'T's is the stripped title |
| NaicsCleanUp.RStripTIdempotent | tools/NAICS_tools.py:23 | stripping twice equals stripping once |
| NaicsCleanUp.CleanUpDescriptions | tools/NAICS_tools.py:3-25 | cleanup succeeds exactly when every Code cell converts; it then keeps the row count and order, converts each Code, strips each Title and leaves each Description unchanged; otherwise the error is that of the first bad cell |
| NaicsCleanUp.CleanUpIdempotent | tools/NAICS_tools.py:14-25 | cleaning an already cleaned table gives the same table |
| NaicsCleanUp.Frame.CleanUp | tools/NAICS_tools.py:14-25 | the in-place cleanup of the caller's frame: on success the columns hold the cleaned table; on failure the Code column holds the composite-replaced cells and the other columns are unchanged |
| NaicsChildren.ChildRange | tools/NAICS_tools.py:33-47 | every child range is non-empty and, for a positive key, lies above the key |
| NaicsChildren.RegularChildRange | tools/NAICS_tools.py:45-47 | for a positive code other than 31, 44 and 48, c is in its range exactly when c is the code with one more digit appended |
| NaicsChildren.SectorChildRange | tools/NAICS_tools.py:33-41 | for 31, 44 and 48, c is in the range exactly when c extends one of the two-digit codes the sector spans (31-33, 44-45, 48-49) by one digit |
| NaicsChildren.RootChildRange | tools/NAICS_tools.py:42-44 | the root's children are exactly the non-negative codes of at most two digits |
| NaicsChildren.MatchIndices | tools/NAICS_tools.py:48 | the row filter's positions are strictly increasing and valid, and they are exactly the rows whose code is in range |
| NaicsChildren.Select | tools/NAICS_tools.py:48 | the filtered rows are the rows at those positions, in table order |
| NaicsChildren.GetChildren | tools/NAICS_tools.py:29-50 | the children are the in-range rows in order, each with its code, the title "<code>: <title or empty>" and its description or "" |
| NaicsChildren.GetChildrenKeys | tools/NAICS_tools.py:54-56 | the keys are the codes of the rows the range filter keeps, one per kept row, in table order, and they are the children's codes |
| NaicsChildren.ChildrenKeysMembership | tools/NAICS_tools.py:48-56 | c is among the keys exactly when some row has code c inside the child range |
| NaicsChildren.ChildKeysIncrease | tools/NAICS_tools.py:33-48 | every child of a positive key has a larger code, so each step down the tree increases the code |
| NaicsTree.DefaultRoot | tools/NAICS_tools.py:61-65 | the default root has value 0 and no children entry |
| NaicsTree.CreateStreamlitTree | tools/NAICS_tools.py:60-99 | the node keeps its value, label and description, and a node that does not expand is returned unchanged; the expanding branch is unfolded by the helper lemma `ChildSubtrees` |
| NaicsTree.TreeObeysChildRule | tools/NAICS_tools.py:91-99 | in the built tree every node has a children entry exactly when it has child rows and lies above max_level, with one node per child row in order |
| NaicsTree.ChildRuleDeterminesTree | tools/NAICS_tools.py:91-99 | two trees that obey the child rule from the same root are equal, so the rule fully characterises the builder's output |
| NaicsTree.TreeEdgesFromTable | tools/NAICS_tools.py:91-98 | every edge of the tree leads to a table row whose code is in the parent's child range, labelled "<code>: <title>", and no children entry is empty |
| NaicsTree.TreeHeightBound | tools/NAICS_tools.py:97-98 | no path below the root has more than max_level - level edges |
| NaicsTree.ChildRuleExpandsAboveOnly | tools/NAICS_tools.py:97 | under the child rule, only nodes above max_level have children |
| NaicsTree.ExpandsAboveOnlyBoundsHeight | tools/NAICS_tools.py:97-98 | children only above max_level bound the height by max_level - level |
| NaicsTree.GetNaicsTree | tools/NAICS_tools.py:112-114 | the tree exists exactly when cleanup succeeds, and otherwise cleanup's error is passed on; the root carries the default root's data, and with max_level <= level it is the default root without children |
| NaicsTree.NaicsTreeShape | tools/NAICS_tools.py:107-114 | the tree of a cleaned table obeys the child rule, draws every edge from the table and respects the height bound |
| NaicsTree.SharedDefaultRoot.CreateStreamlitTreeWithDefault | tools/NAICS_tools.py:60-98 | a call relying on the default node builds from the shared root's current state and leaves its result in that shared root |
| NaicsExamples.ManufacturingTree | tools/NAICS_tools.py:3-99 | a Manufacturing table ("31-33", "311", "312") builds root 0 with sector 31, whose subsectors 311 and 312 are leaves, with stripped and prefixed titles |
| NaicsExamples.SectorCodesCleanUp | tools/NAICS_tools.py:17-20 | the composite sector labels and a plain code clean to 31, 44, 48 and 22 |
| NaicsExamples.MalformedCodeCleanUp | tools/NAICS_tools.py:20 | a code such as "31-32" makes cleanup fail with that text |
| NaicsExamples.MissingCodeCleanUp | tools/NAICS_tools.py:20 | a missing Code cell makes cleanup fail |
| NaicsExamples.FirstBadCode | tools/NAICS_tools.py:20 | when cell k is the first Code cell that does not convert, cleanup fails with cell k's error |
| NaicsExamples.ChildRangeValues | tools/NAICS_tools.py:33-47 | concrete ranges for the three sectors, the root and two regular codes |
| NaicsExamples.TitleStripping | tools/NAICS_tools.py:23 | "ManufacturingTT" loses both 'T's, and "Manufacturing T" keeps its space |
| NaicsExamples.SharedDefaultKeepsStaleChildren | tools/NAICS_tools.py:61-98 | after a call that expanded the shared default root, a call with max_level 0 returns the same expanded root, where a fresh root gives the default root without children |

## Left out

- `get_NAICS_df` (tools/NAICS_tools.py:103-108): it reads the spreadsheet over the network. `GetNaicsTree` takes the raw table as a parameter instead.
- `get_NAICS_streamlit` (lines 112-114) fetches the table and builds the tree from it, and the `__main__` block (lines 121-122) only fetches the table. `GetNaicsTree` models the composition, with the fetched table as a parameter.
- `tools/page_tools.py` is not part of this model. It is widget layout.
- The `key_col` parameter: no caller passes it, so every call uses the default 'Code', and the rename at line 92 names 'Code' explicitly. The model always uses the code column.
- `Decimal.ParseNat`: `astype(int)` applies Python's `int()` to each text cell. That also accepts surrounding whitespace, a sign, `_` digit separators ("3_11") and non-ASCII decimal digits, and pandas also converts float-valued cells. The model accepts only plain digit strings and integer cells; any other text is an error. Integer cells are taken to be within the 64-bit range already.
- Cleanup error text: pandas raises a `ValueError`, `TypeError` or `OverflowError` whose message mentions the cell. The model keeps only the kind of failure and the offending cell's text.
- Missing titles: when the Title column also holds strings, a NaN title passes through `rstrip` unchanged. It is modelled as `None`, and `FillNa` turns it into "" when building children.
- NaicsCleanUp.CleanUpDescriptions: a non-empty table whose every Title is missing makes pandas store the column as floats, and then `.str.rstrip('T')` at line 23 raises `AttributeError`. The model succeeds on such a table and keeps every title `None`, because it does not model the column types pandas infers. The same holds for `NaicsCleanUp.Frame.CleanUp`.
- Let `df` be the original frame and `children` the filtered copy. Writing to `children` may warn in pandas but does not change `df`. The model treats `children` as a separate value.
- `NaicsTree.CreateStreamlitTree` returns the updated node as a value. Python's aliasing of the node dict passed in is not modelled: a caller's node is not changed by the call.
- NaicsTree.SharedDefaultRoot.CreateStreamlitTreeWithDefault: the source returns the shared dict itself, so a tree returned by an earlier default call changes when a later default call writes new children into it at line 98. The model returns a copy of the shared root's new state, so an earlier result stays as it was. It models only the stale state the next call starts from.

## Findings

| source | as written | input that shows it | evidently intended | confidence | as-written member | corrected member |
|---|---|---|---|---|---|---|
| tools/NAICS_tools.py:61-98 | the default `node` dict is created once and then written at line 98, so a later call with the default node starts from the previous call's tree; a node that does not expand is returned unchanged, stale children included | on the Manufacturing table, call `create_streamlit_tree(df, max_level=5)` and then `create_streamlit_tree(df, max_level=0)`: the second returns the root with sector 31 and its subsectors | each call starts from a fresh root, so max_level 0 gives the root without children | medium, not executed | NaicsExamples.SharedDefaultKeepsStaleChildren (via NaicsTree.SharedDefaultRoot.CreateStreamlitTreeWithDefault) | NaicsTree.GetNaicsTree |
