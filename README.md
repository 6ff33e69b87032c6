# 2004Scape drop search, modelled in Dafny

`app.py` loads the drop scripts of the 2004Scape server. Each script is cut into
`if ($random < N)` branches, and every `obj_add(npc_coord, ITEM, QTY,
^lootdrop_duration)` in a branch becomes one drop record. A record has an item, a
chance, a quantity text and a members flag. The loader keeps two tables:

- the records of every monster, named after the script file;
- for every item, the monsters that drop it.

The monster search and the item search pick what to show from a fuzzy-ranked list
of names.

The model has five modules:

- `Text` (`text.dfy`) holds the Python string operations the parser relies on:
  `str.strip`, the substring test `in`, decimal digits, and `str` of a natural
  number.
- `Quantity` (`quantity.dfy`) is `parse_quantity`. It has a hand-written matcher
  for the `calc(random(N) + M)` pattern, proved sound and complete against a
  description of the texts the pattern accepts.
- `DropFile` (`drop_file.dfy`) is `parse_drop_file`. The method with its loops is
  proved equal to a recursive specification. Lemmas over that specification give
  the position, chance, item, quantity and members flag of every record. They also
  give the telescoping sum of the chances.
- `Search` (`search.dfy`) is the threshold rule of both searches.
- `DropModel` (`drop_model.dfy`) is the class `DropParser`. Its constructor loads
  the scripts and `AddDrops` merges one script into the two tables; both are
  proved against a specification. Lemmas show that the two tables always agree and
  that each monster's list is its scripts' records in file order. The two search
  methods produce the tables that would be displayed. The item search is proved to
  show every record for the item and nothing else, each as many times as it occurs
  in its monster's list.

A chance is a number of successes out of 128; `Certain` stands for the default
drop's `100%`.

The following behaviour is modelled as the code has it:

- A quantity that is neither a range nor an integer is returned stripped. It is
  not replaced by a default.
- Branch bounds are never checked, so a falling bound gives a negative chance
  (`DropFile.FallingBoundExample`).
- `previous_chance` moves on after every record, so only the first record of a
  branch gets the branch's share. Later records of the same branch get 0.
- A close match (top score at least 80) shows every ranked match that scores at
  least 60. There is no further narrowing on an exact match.

## Model

| member | source | states |
|---|---|---|
| Text.StripLeftShape | app.py:52 | `lstrip` removes a prefix made only of white space and leaves a result that does not start with white space |
| Text.StripRightShape | app.py:52 | `rstrip` removes a suffix made only of white space and leaves a result that does not end with white space |
| Text.StripShape | app.py:52 | every string is some white space, then its stripped text, then some white space |
| Text.StripTrimmed | app.py:52 | a stripped text neither begins nor ends with white space |
| Text.StripAround | app.py:52 | stripping white space around a trimmed core gives back exactly that core |
| Text.ContainsIff | app.py:71 | the substring test holds exactly when the pattern occurs at some index of the text |
| Text.NatToString | app.py:57 | `str(n)` is a non-empty digit string with no leading zero (except `0` itself) that reads back as `n` |
| Text.LeadingDigits | app.py:53 | a greedy `\d` run: all digits, followed by the end of the text or a non-digit |
| Text.LeadingSpaces | app.py:53 | a greedy `\s` run: all white space, followed by the end of the text or a non-space |
| Text.LeadingDigitsOf | app.py:53 | a digit run followed by a non-digit is consumed exactly |
| Text.LeadingSpacesOf | app.py:53 | a white-space run followed by a non-space is consumed exactly |
| Quantity.MatchCalc | app.py:53 | a match of the range pattern captures two non-empty digit runs |
| Quantity.MatchCalcComplete | app.py:53 | every text that starts with `calc(random(` digits `)` spaces `+` spaces digits `)` matches, and the match captures the two digit runs |
| Quantity.MatchCalcSound | app.py:53-54 | every match comes from such a text, and the captured groups are its digit runs |
| Quantity.ParseQuantityOfRange | app.py:52-57 | a stripped token that starts with a range expression gives `M-(N+M)` |
| Quantity.RangeTextReadsBack | app.py:57 | the range text is two digit strings joined by `-`, denoting `M` and `N+M` |
| Quantity.ParseQuantityOfOther | app.py:58-62 | a token whose stripped text does not start with a range expression is returned stripped and otherwise unchanged |
| Quantity.ParseQuantityTrimmed | app.py:50-62 | a parsed quantity never begins or ends with white space |
| Quantity.ParseQuantityExampleSpaced | app.py:57 | `calc(random(2) + 1)` gives `1-3` |
| Quantity.ParseQuantityExampleUnspaced | app.py:53-57 | `calc(random(50)+1)` gives `1-51` |
| Quantity.ParseQuantityExampleFixed | app.py:58-60 | ` 5\n` gives `5` |
| DropFile.ScriptDrops | app.py:87-96 | a script yields exactly one record per emission, over all branches |
| DropFile.ParseDropFile | app.py:64-106 | the records the loops build are the specification's records: the default drop if the death-drop marker occurs, then every branch's records in order |
| DropFile.AddBranchDrops | app.py:77-96 | one branch appends its records and leaves `previous_chance` at its bound if it emitted anything, unchanged otherwise |
| DropFile.ScriptDropsStep | app.py:77-96 | one more branch appends that branch's records, computed from the running value its predecessors left |
| DropFile.FileDropsShape | app.py:71-72 | with the death-drop marker the default drop comes first and there is one record more than emissions; without it there are exactly as many records as emissions |
| DropFile.ScriptDropAt | app.py:77-96 | record `k` of branch `i` sits right after the records of the earlier branches and is emission `k`'s record |
| DropFile.ScriptDropChance | app.py:88-96 | the first record of a branch gets its bound minus the bound of the last earlier branch that emitted; later records of the branch get 0 |
| DropFile.ScriptDropItem | app.py:80-94 | a record carries its emission's stripped item and the members flag of its own branch's body |
| DropFile.ScriptDropQuantity | app.py:89-93 | a record carries its emission's parsed quantity |
| DropFile.FallingBoundExample | app.py:77-96 | bounds 64 then 32 give chances 64, -32 and 0 |
| DropFile.EmptyBranchesCarry | app.py:87-96 | branches without emissions leave the running value unchanged, so their share goes to the next branch that emits |
| DropFile.EmittingBranchSetsBound | app.py:96 | after a branch that emits, the running value is that branch's bound |
| DropFile.BranchSuccesses | app.py:87-96 | a branch's records together carry its bound minus the running value, or nothing if it has no emissions |
| DropFile.ScriptSuccessesTelescope | app.py:75-96 | the chances of all branch records add up to the bound of the last branch that emitted |
| DropFile.ScriptSuccessesComplete | app.py:75-96 | if the last branch emits and has bound 128, the chances add up to 128 out of 128 |
| Search.Select | app.py:118-121 | the search's branch and its loop over the matches compute the selection rule |
| Search.AtLeastMembers | app.py:119-120 | a match is shown exactly when it is ranked and scores at least the threshold |
| Search.AtLeastLength | app.py:119-120 | the shown matches are never more than the ranked ones |
| Search.AtLeastOfRanked | app.py:116-120 | on a list ranked best first, the shown matches are a prefix: all matches from the first one below the threshold on are dropped |
| Search.SelectedShape | app.py:118-134 | a selection is shown exactly when the list is non-empty and its top score is at least 80; it then starts with the top match and holds exactly the matches scoring at least 60; otherwise every ranked match is suggested, in order |
| DropModel.MonsterName | app.py:29 | the monster name is the file name up to (not including) its first dot |
| DropModel.MonsterNameOf | app.py:29 | a dot-free stem followed by a dot names the monster by that stem, whatever follows |
| DropModel.ListedOnce | app.py:41-42 | adding a monster to an item's list keeps the list in order, adds only that monster, adds it at most once, and doing it twice changes nothing |
| DropModel.RegisterAllAt | app.py:37-42 | after a script's records, every item among them lists the monster once, appended if missing; other items keep their lists and no other item is added |
| DropModel.DropsItemAppend | app.py:34 | a concatenation of record lists has a record for an item exactly when one of the parts does |
| DropModel.AddConsistent | app.py:32-42 | merging a script keeps the tables in agreement: every monster has records, no item lists a monster twice, and an item lists exactly the monsters that have a record for it |
| DropModel.LoadConsistent | app.py:16-42 | the tables loaded from any scripts agree in that sense |
| DropModel.LoadedDrops | app.py:29-36 | a monster is known exactly when some script named after it has records, and its list is those scripts' records concatenated in file order |
| DropModel.MonsterRowsMembers | app.py:151-154 | the rows for one monster are its records for the item, and no others |
| DropModel.MonsterRowsCount | app.py:151-154 | each record for the item gives one row per occurrence in the monster's list, so repeated records are shown repeatedly, and no other row occurs |
| DropModel.RowsForMembers | app.py:150-154 | the rows over a list of monsters are the records for the item of exactly those monsters |
| DropModel.RowsForCount | app.py:150-154 | over distinct monsters, a row occurs as often as its record occurs in its monster's list when that monster is listed and the record is for the item, and not at all otherwise |
| DropModel.ItemRowsComplete | app.py:150-154 | on agreeing tables, the item search shows every record for the item, over all monsters, and nothing else (how often each appears is `ItemRowsCount`) |
| DropModel.ItemRowsCount | app.py:150-154 | on agreeing tables, each record for the item gives as many rows as it occurs in its monster's list, and no other row occurs |
| DropModel.DropParser.constructor | app.py:7-42 | starting from empty tables and adding every script in order gives the loaded tables, and they agree |
| DropModel.DropParser.AddDrops | app.py:32-42 | a script without records changes nothing; otherwise its records are appended to the monster's list and indexed; the tables still agree afterwards |
| DropModel.DropParser.IndexDrops | app.py:37-42 | the loop over a script's records indexes them one by one and leaves the monster table alone |
| DropModel.DropParser.SearchMonster | app.py:112-134 | the monster search makes the selection and shows, for every shown monster, its full record list |
| DropModel.DropParser.SearchItem | app.py:136-160 | the item search makes the selection and shows, for every shown item, the rows of every monster listed for it |
| DropModel.DropParser.ItemTables | app.py:143-154 | one table per shown item, in order |
| DropModel.DropParser.ItemTable | app.py:150-154 | the two nested loops build the rows of the monsters listed for the item, monster by monster |
| DropModel.MonsterTable | app.py:151-154 | the inner loop keeps the monster's records for the item, in order |

## Left out

- Reading files and walking directories (app.py:16-28, 44-48, 68-69): the scripts arrive as a sequence of file name, text and branches, in the order the walk would deliver them. Missing folders and the two base paths are not modelled.
- Cutting a script into branches and finding its `obj_add` calls (app.py:74, 82-85): the regular expressions are taken as already applied. Each branch arrives with its bound as a natural number, its body text and its captured (item, quantity) pairs.
- Quantity.MatchCalc: `\d` matches only the ASCII digits here. Python also accepts other Unicode decimal digits.
- Chance formatting (app.py:88, 92): the percentage `(bound - previous) / 128 * 100` rendered with two decimals is kept as the integer number of successes out of 128. The default drop's `100%` is `Certain`.
- The `int(quantity_str)` test (app.py:58-62) is not modelled separately, because both of its outcomes return the same string.
- The exception handler (app.py:103-106) is not modelled. Besides reading the file, three errors can be raised there: a branch bound so large that its chance overflows a float at the division by 128 (app.py:88), a digit run over Python's int-conversion limit (app.py:55-56, 78), or a sum `N + M` whose decimal text at app.py:57 exceeds that limit. The source then keeps only the records built before the error, while `DropFile.ParseDropFile` builds them all.
- Console output (the table headers, column widths and the `Yes`/`No` members column). The searches return the selection and the tables that would be displayed instead.
- The fuzzy matcher (app.py:108-110, `fuzzywuzzy.process.extract` with `partial_ratio`, at most five results) and the lower-casing of the query (app.py:113, 137): the ranked list of (name, score) pairs is an input, and its names are keys of the searched table.
- The interactive menu (app.py:162-184).
- Sharing of list objects: the first script of a monster stores the returned list itself, which later scripts extend in place. The model stores values, and nothing else holds that list.
