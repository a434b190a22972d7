# map-coloring in Dafny

A model of the core of `map-coloring`, a C program that colours a map so that
no two bordering countries share a colour. It has three parts:

- **The ADT List** (`ADT_List/list_module/list.c`), the singly linked list of strings that holds
  one country.
  - Module `Lists` makes it a class with a dummy head node, a `last` pointer and a `size` counter.
  - The ghost sequences `Contents` (the strings) and `Nodes` (the node chain) are tied to the
    `next` pointers by `Valid()`.
  - A NULL string is `None` and NIL_NODE is `null`.
- **The colouring engine** (`src/color.c`).
  - A map is an array of lists, one per country. Each list holds the country's colour (or
    `"nocolor"`), its name and its neighbours' names.
  - Module `MapSpec` states the read-only scans as functions over a sequence of `Country` values,
    with lemmas about adjacency and the backtracking search.
  - Module `Color` holds the imperative code. The list-walking methods are proved to compute the
    `MapSpec` functions. `paint_country`, `color_map` and `sort_map` change the lists or the array
    in place. Each states the new sequence of countries the map holds.
- **The tokenizer of `read_map`** (`src/parse.c`), module `Parse`.
  - `Scan` is the word scanner as a function on one line.
  - `Tokenize` lifts it to a sequence of lines.
  - The loops of `read_map` are methods proved to compute them. They fill one list per line.

`is_valid` and `is_whitespace` are the predicates `Parse.IsValid` and `Parse.IsWhitespace`. `isalnum`
is taken in the C locale: ASCII letters and digits.

`MAX_WORD` and `MAX_COUNTRIES` come from `constants.h`, which is not part of this model. They are the
parameters `maxWord` and `maxCountries`, and `options.n_countries` is the parameter `n`. `terminate`
(exit with a message) becomes an `Err` result of type `Parse.ParseError`.

The colouring guarantees are stated for maps that pass `is_map_valid` and whose country names are
distinct (`MapSpec.Sound`). The main driver checks `is_map_valid` before any colouring, but never
checks for distinct names. `MapSpec.RepeatedNameConflict` is a map with a repeated name that passes
`is_map_valid` and on which `can_color` lets two bordering countries take the same colour.

## Model

| member | source | states |
|---|---|---|
| Lists.Node.constructor | ADT_List/list_module/list.c:33-44 | a new node holds the given string and next pointer |
| Lists.Node.Dummy | ADT_List/list_module/list.c:58 | the dummy node of a new list points to NIL_NODE |
| Lists.List.constructor | ADT_List/list_module/list.c:54-69 | a new list is valid and empty, its chain is the dummy node alone, and `last` is the dummy |
| Lists.List.Size | ADT_List/list_module/list.c:86-88 | the size field is the number of strings in the list |
| Lists.List.IsEmpty | ADT_List/list_module/list.c:92-94 | true exactly when the list holds no string |
| Lists.List.Begin | ADT_List/list_module/list.c:116-118 | NIL_NODE for an empty list, otherwise the node of the first string |
| Lists.List.End | ADT_List/list_module/list.c:130-132 | the end marker is NIL_NODE |
| Lists.List.Next | ADT_List/list_module/list.c:124-126 | the node after the one holding position k, or NIL_NODE after the last one or for NIL_NODE |
| Lists.List.Access | ADT_List/list_module/list.c:163-165 | the string held by a node of the list, NULL for NIL_NODE |
| Lists.List.GetNode | ADT_List/list_module/list.c:137-145 | the node of position `index` when 0 <= index < size, NIL_NODE otherwise |
| Lists.List.Get | ADT_List/list_module/list.c:150-158 | the string at `index` when 0 <= index < size, NULL otherwise |
| Lists.List.Search | ADT_List/list_module/list.c:99-112 | NIL_NODE exactly when the string is NULL or absent; otherwise the node of its first occurrence |
| Lists.List.Replace | ADT_List/list_module/list.c:169-172 | overwrites the string of one node; nodes, size and `last` are unchanged; NIL_NODE or a NULL string change nothing |
| Lists.List.InsertAfter | ADT_List/list_module/list.c:186-197 | inserts right after the node (at the head for NIL_NODE or the dummy); the others keep their order; `last` moves only after the old last node; NULL is a no-op |
| Lists.List.Link | ADT_List/list_module/list.c:190-196 | splices a fresh node into the chain at position k, keeping the list valid |
| Lists.List.InsertLast | ADT_List/list_module/list.c:176-178 | appends at the tail, and the earlier nodes are unchanged; NULL is a no-op |
| Lists.List.Delete | ADT_List/list_module/list.c:210-226 | removes exactly that node and its string; `last` moves to the predecessor when the last node goes; NIL_NODE is a no-op |
| Lists.List.Unlink | ADT_List/list_module/list.c:213-225 | unlinks the node after its predecessor, keeping the list valid |
| Lists.List.DeleteLast | ADT_List/list_module/list.c:201-203 | removes the last string and the last node of a non-empty list; `last` moves to the node before it |
| MapSpec.Colour | src/color.c:115-118 | get_color: no colour exactly for a country still "nocolor", and never the colour "nocolor" |
| MapSpec.CanColor | src/color.c:137-163 | can_color, the reference the Color scans are proved against: never true for a coloured country unless checking, always true for a country without neighbours (CanColorBorders gives its meaning) |
| MapSpec.IsMapValid | src/color.c:12-54 | is_map_valid, the reference for rules A and B: a map that passes resolves every neighbour name (rule A) |
| MapSpec.IsValidColoring | src/color.c:227-242 | is_valid_coloring, the reference definition: a map with no coloured country always passes (ValidColoringMeans gives its meaning) |
| MapSpec.FindFrom | src/color.c:91-97 | -1 or an index at or after i holding the name |
| MapSpec.FindCountry | src/color.c:91-97 | -1 or an index holding the name |
| MapSpec.FindCountryLowest | src/color.c:91-97 | find_country gives the lowest index holding the name, and -1 exactly when no country has it |
| MapSpec.Paint | src/color.c:77-81 | painting changes only the colour of one country; names, neighbours and other countries are unchanged |
| MapSpec.UnpaintRestores | src/color.c:85-87 | unpainting a freshly painted, previously uncoloured country restores the map |
| MapSpec.Palette | src/color.c:205-206 | the colours color_map tries are colors[0 .. n_colors - 1] |
| MapSpec.FindUnique | src/color.c:91-97 | with distinct names, find_country of a country's name finds that country |
| MapSpec.ShapeKeepsScans | src/color.c:77-81 | painting leaves find_country, rules A and B, name uniqueness and adjacency as they were |
| MapSpec.BordersSymmetric | src/color.c:36-53 | on a valid map with distinct names, adjacency is symmetric (rule B) |
| MapSpec.CanColorBorders | src/color.c:137-163 | with distinct names, can_color holds exactly when the country may be coloured and no coloured bordering country has that colour |
| MapSpec.ValidColoringMeans | src/color.c:227-242 | with distinct names, is_valid_coloring holds exactly when no two bordering coloured countries share a colour and no country uses clrs[n_clrs] while n_clrs < max_clrs - 1 |
| MapSpec.SelfBorderRejected | src/color.c:227-242 | a coloured country that lists itself as a neighbour fails is_valid_coloring |
| MapSpec.RepeatedNameConflict | src/color.c:150-157 | a map with a repeated name passes is_map_valid, yet can_color lets a country take the colour of a different bordering country, because the name lookup finds the other country of that name |
| MapSpec.PermutedSound | src/mapcol.c:27-49 | reordering a map keeps rule A, and keeps a sound map sound, so sort_map after is_map_valid leaves color_map a map its guarantees cover |
| MapSpec.PaintLowers | src/color.c:203-209 | painting an uncoloured country lowers the number of uncoloured countries by one, which bounds the recursion |
| MapSpec.AllColouredCompletes | src/color.c:218-220 | a map with no uncoloured country is its own conflict-free completion |
| MapSpec.PaintedCompletes | src/color.c:205-212 | completing the map painted at an uncoloured country with a palette colour completes the original map |
| MapSpec.PaintedBranch | src/color.c:205-212 | on a sound map, painting a colour can_color accepts and then completing without new conflicts completes the original map without new conflicts |
| MapSpec.AllBranchesFail | src/color.c:205-216 | on a sound map, if no accepted palette colour leads to a colourable map, the map is not colourable |
| MapSpec.CompletionAccepted | src/color.c:205-206 | the colour a conflict-free completion gives an uncoloured country is one can_color accepts |
| MapSpec.CompletionPainted | src/color.c:205-212 | a conflict-free completion is also one of the map painted with the colour it gives that country |
| Color.GetName | src/color.c:122-124 | the name of the country |
| Color.GetColor | src/color.c:115-118 | the colour of the country, NULL exactly while it is "nocolor" |
| Color.Uncolored | src/color.c:128-130 | true exactly when the country's colour is "nocolor" |
| Color.NeighbourCount | src/color.c:101-105 | the number of neighbour names of the country |
| Color.HasNeighbours | src/color.c:109-111 | true exactly when the country has a neighbour |
| Color.FindCountry | src/color.c:91-97 | the linear scan computes MapSpec.FindCountry |
| Color.ColorOfNamed | src/color.c:154 | the colour of the country a neighbour name resolves to |
| Color.NeighbourColour | src/color.c:153-159 | one step of can_color's loop: the colour of neighbour k and the node after it |
| Color.NoNeighbourHas | src/color.c:145-162 | true exactly when no neighbour, found by name, has the colour |
| Color.CanColor | src/color.c:137-163 | computes MapSpec.CanColor: false for a coloured country unless checking, true without neighbours, else no neighbour has the colour |
| Color.ListsBack | src/color.c:31-47 | true exactly when the name resolves (rule A) and that country lists the back name among its neighbours (rule B) |
| Color.NeighboursListBack | src/color.c:24-50 | true exactly when rules A and B hold for every neighbour of the country |
| Color.IsMapValid | src/color.c:12-54 | computes MapSpec.IsMapValid: rules A and B for every country |
| Color.IsValidColoring | src/color.c:227-242 | computes MapSpec.IsValidColoring: every coloured country passes can_color with its own colour and avoids clrs[n_clrs] while n_clrs < max_clrs - 1 |
| Color.PaintCountry | src/color.c:77-81 | the map becomes MapSpec.Paint of the old one when the colour is present, fits MAX_WORD and the index is in range, and is unchanged otherwise; the lists stay valid and disjoint |
| Color.UnpaintCountry | src/color.c:85-87 | paints "nocolor" over the country |
| Color.ColorMap | src/color.c:184-221 | on success every country is coloured, earlier colours are kept and new ones come from the palette, and on a sound map no bordering pair with a newly coloured country conflicts; on failure the map is unchanged and, on a sound map, no such colouring exists |
| Color.ColorCountry | src/color.c:204-217 | the colour loop for the first uncoloured country: the same guarantees, with failure only after every colour was tried |
| Color.TryColour | src/color.c:206-213 | one colour: success completes the map; failure leaves it unchanged (unpaint after a failed recursion) and, on a sound map, that colour leads to no colouring |
| Color.Comparator | src/color.c:168-173 | negative, zero or positive as the first country has more, as many or fewer neighbours |
| Color.Sink | src/color.c:177-179 | one insertion step: a permutation whose first i + 1 lists are ordered by non-increasing size |
| Color.SortSlots | src/color.c:177-179 | a permutation of the lists ordered by non-increasing size |
| Color.PermutedCountries | src/color.c:177-179 | a permutation of the lists holds a permutation of the countries, ordered by neighbour count when the lists are ordered by size |
| Color.SortMap | src/color.c:177-179 | the slots hold a permutation of the same lists, the countries are a permutation of the old ones with non-increasing neighbour counts, the lists are untouched, and rule A and soundness carry over to the sorted map |
| Color.PutBack | src/color.c:178 | storing the sorted lists into the slots makes the map read as the sorted countries |
| Color.MapCopy | src/color.c:58-66 | a new array holding the same list handles in the same order |
| Color.CopyReadable | src/color.c:58-66 | the copy reads as the same countries |
| Color.SharedList | src/color.c:58-66 | two arrays sharing a list see the same country in it, so colours painted through the sorted map show through the copy |
| Parse.IsValid | src/parse.c:32-34 | is_valid: a word character is never the NUL, the newline or a blank, so words end at either |
| Parse.IsWhitespace | src/parse.c:38-40 | is_whitespace: a blank is never the NUL or the newline, so skipping blanks stops at the line's end |
| Parse.SkipSpace | src/parse.c:64 | the first position from i that is not a space or tab, with only blanks before it |
| Parse.WordEnd | src/parse.c:72-77 | the end of the run of word characters starting at i |
| Parse.Scan | src/parse.c:63-80 | the words a line yields are one to MAX_WORD word characters each, and scanning never reports too many lines |
| Parse.ScanInvalid | src/parse.c:64-67 | a non-word character after the blanks is invalid input |
| Parse.ScanTooBig | src/parse.c:72-73 | a word longer than MAX_WORD is an error |
| Parse.ScanWord | src/parse.c:72-80 | an acceptable word is taken, and scanning goes on one character after it |
| Parse.SkipBlanks | src/parse.c:64 | the blank-skipping loop computes SkipSpace |
| Parse.ReadWord | src/parse.c:69-77 | the copy loop yields the word, or reports a word too big exactly when it is longer than MAX_WORD |
| Parse.NextWord | src/parse.c:63-78 | one token step: its error is Scan's error, or its word is the first word Scan yields and Scan goes on from the returned position |
| Parse.ReadLine | src/parse.c:63-80 | appends exactly the words Scan finds in the line to the list, or returns Scan's error |
| Parse.ScanJoined | src/parse.c:63-80 | round trip: a line made of acceptable words with allowed separators scans back to exactly those words |
| Parse.BlankLineRejected | src/parse.c:64-67 | a line of only blanks, the empty line included, is invalid input |
| Parse.LongWordRejected | src/parse.c:63-80 | a word longer than MAX_WORD rejects the line wherever it stands: after any number of acceptable words and separators |
| Parse.SkippedSeparator | src/parse.c:63-80 | the character after a word is skipped unchecked: "a#b" gives a and b |
| Parse.DoubleSeparatorRejected | src/parse.c:63-67 | a second such character is invalid input: "a##b" is rejected |
| Parse.TrailingBlankRejected | src/parse.c:63-80 | blanks between the last word and the newline are invalid input, after any number of acceptable words and separators |
| Parse.Tokenize | src/parse.c:58-81 | a successful reading has one word sequence per line, at most MAX_COUNTRIES of them |
| Parse.TokenizeScans | src/parse.c:58-80 | line k of a successful reading holds the words Scan finds in line k |
| Parse.TokenizeOk | src/parse.c:58-81 | reading succeeds exactly when there are at most MAX_COUNTRIES lines and every line scans |
| Parse.TokenizeTooMany | src/parse.c:58-60 | too many lines is the error exactly when there are more than MAX_COUNTRIES lines and the first MAX_COUNTRIES all scan |
| Parse.TokenizeStops | src/parse.c:63-67 | reading stops with the error of the first line that does not scan |
| Parse.TokenizeAll | src/parse.c:58-83 | lines that all scan and fit read as their words |
| Parse.CreateLists | src/parse.c:48-50 | MAX_COUNTRIES new, empty, valid and disjoint lists |
| Parse.FillLine | src/parse.c:63-80 | the words of one line go into list n, and no other list changes |
| Parse.ReadNext | src/parse.c:58-80 | line n is read into list n, and the lists so far hold the scans of the lines so far |
| Parse.ReadMap | src/parse.c:44-85 | returns Tokenize's error, or the number of lines read, with list k holding the words of line k and the remaining lists empty |

## Left out

- Printing is not modelled: `map_print`, `list_print` and the message `is_valid_coloring` prints before rejecting a colour.
- Memory release (`list_destroy`, `list_aux_destroy_node`, `cleanup`) is not modelled. Neither is allocation failure: every allocation succeeds, so the out-of-memory branches of `list_aux_new_node`, `list_create`, `map_copy` and `read_map` do not appear.
- `src/genmap.c`, `src/mapcol.c` and `src/utilities.c` are not part of this model. They hold random maps, the driver and command-line handling.
- Module `Color` uses the driver's calling order as preconditions:
  - the map passed `is_map_valid`, so every neighbour name resolves (`MapSpec.AllResolve`). The driver checks the map before `sort_map`; `MapSpec.PermutedSound` carries rule A and soundness over to the sorted map;
  - the palette colours are not "nocolor" and fit MAX_WORD, and "nocolor" itself fits MAX_WORD (`ColorMap`, `ColorCountry` and `TryColour` require both, since unpainting writes "nocolor"). With the value of MAX_WORD outside this model, both stay assumptions about the constants.
- Input reading: `fgets`, the `FILE` and the 1024-byte line buffer are replaced by a sequence of lines.
- Parse.ReadMap: every line must end with its newline (rule C of the input format). On a last line without one, the C loop reads past the end of the word.
- Parse.ReadMap: on an error nothing is said about the lists, because `terminate` ends the program.
- Parse.ReadMap: `read_map` allocates the array before the lists, while the model creates the lists first. Only the order of allocation differs.
- Parse.IsAlnum: `isalnum` is taken for ASCII letters and digits only. Locale-dependent letters are not modelled.
- Color.SortSlots: `qsort` is replaced by an insertion sort. The result is specified only as a permutation ordered by non-increasing neighbour count, so the order between countries with as many neighbours is not modelled.
- Color.ColorMap: the no-conflict and completeness guarantees need distinct country names besides `is_map_valid` (`MapSpec.Sound`). With a repeated name they fail (`MapSpec.RepeatedNameConflict`), and the C code does not check names.
- Color.ColorMap: the no-conflict guarantee is stated for two different countries. A country listing itself as a neighbour is caught by `is_valid_coloring` (`MapSpec.SelfBorderRejected`), not by `color_map`.
- Lists.List.Replace: `strcpy` into the node's string buffer is modelled as replacing the string. The buffer bound it relies on is the MAX_WORD check of `paint_country`.
- Lists.List.DeleteLast: requires a non-empty list. On an empty list the C code walks past the end of the chain.
- Lists.List.Delete: requires the node to be in the list, as the C code assumes.
- Integer widths (`size_t`, `int`) are unbounded here. Sizes never come near their limits.
- The methods `NeighbourColour`, `ListsBack`, `NeighboursListBack`, `ColorCountry`, `TryColour`, `Sink`, `SkipBlanks`, `ReadWord`, `NextWord`, `ReadLine`, `FillLine` and `ReadNext` split single C functions into their loops. Together they follow the C control flow.
