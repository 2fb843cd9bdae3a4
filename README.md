# hexvis core in Dafny

hexvis takes a list of hex colour codes typed into a textarea and draws a
palette strip. The colours are grouped into a chosen number of k-means
clusters. Within each cluster they are ordered by their LCH coordinates.
This project models the deterministic part of that pipeline in `script.js`
and proves what the code promises about it.

- `text.dfy`, module `Text`: the JavaScript string operations the input
  handling uses. These are `split('\n')`, `trim()` (with the ECMAScript
  WhiteSpace and LineTerminator characters written out) and `join(', ')`.
- `hexinput.dfy`, module `HexInput`: `isValidHexCode` and the tokenising of
  the textarea. It also holds the checks of `processColors` in their order:
  there must be at least one code, then every code must be valid (all
  offenders are reported together), then the cluster count must be in
  1..20. Each failure is a value of `InputError`, with the exact message
  `showError` displays.
- `hexdecode.dfy`, module `HexDecode`: the integer part of `hex_to_lch`.
  That is `lstrip('#')` and then `int(hex_color[i:i+2], 16)` for `i` in
  0, 2, 4. It is proved to invert a lower-case encoder.
- `lchsort.dfy`, module `LchSort`: `sort_colors_lch`. It is Python's stable
  `sorted` with the key `(H, C, L)`, where `get_value_tuple()` returns
  `(L, C, H)`. It is modelled as an insertion sort and proved sorted, a
  permutation, stable and equal to the unique stable sort.
- `palette.dfy`, module `PaletteAssembly`: the loop
  `for cluster in range(n_clusters)`, which extends `sorted_colors` with
  each cluster's sorted codes. It is an imperative method whose loop
  invariant is the grouped concatenation `GroupedPalette`.
- `wrappers.dfy`, module `Wrappers`: `Option` and `Result`.

Two things the browser or the Python libraries decide are parameters of the
model:

- The LCH coordinates of a code are `lch: string -> Lch`. This oracle stands
  for `hex_to_lch(c).get_value_tuple()`.
- The k-means labels are data: the `cluster` field of each `Row`.

The outcome of `parseInt` is an `Option<int>`, with `None` for `NaN`.

## Model

| member | source | states |
|---|---|---|
| HexInput.IsValidHexCode | script.js:48-50 | a code is valid iff it has exactly 7 characters, a leading `#` and six hex digits (both anchors of the pattern) |
| HexInput.IsHexDigit | script.js:49 | the character class `[0-9A-Fa-f]`, as three character ranges |
| HexInput.HexDigitClass | script.js:49 | the class holds exactly the 22 characters `0-9`, `a-f`, `A-F` |
| HexInput.HexDigitsThenEnd | script.js:49 | `[0-9A-Fa-f]{n}$` matches iff the string is exactly `n` hex digits |
| Text.IsWhitespace | script.js:55 | the characters `trim()` removes: ECMAScript WhiteSpace (tab, vertical tab, form feed, BOM, every Unicode Zs space) and LineTerminator (LF, CR, LS, PS) |
| Text.LeadingEnd | script.js:55 | the leading whitespace ends at the first non-whitespace character, or at the end |
| Text.TrailingStart | script.js:55 | the trailing whitespace starts just after the last non-whitespace character, or at 0 |
| Text.Trim | script.js:55 | the result of `trim()` is never longer than its input and has no whitespace at either end |
| Text.TrimDecomposes | script.js:55 | `trim()` keeps exactly the part between the leading and the trailing whitespace; the result is empty iff the line is whitespace only |
| Text.TrimUnique | script.js:55 | whitespace + a part with no whitespace at either end + whitespace trims to exactly that part |
| Text.LeadingEndOf | script.js:55 | whitespace followed by a non-whitespace character ends the leading whitespace exactly there |
| Text.TrailingStartOf | script.js:55 | whitespace after a non-whitespace character starts the trailing whitespace exactly there |
| Text.TrimKeepsOut | script.js:55 | `trim()` introduces no character |
| Text.Split | script.js:55 | `split` always yields at least one piece |
| Text.SplitOmitsSeparator | script.js:55 | no piece of `split('\n')` contains a line break |
| Text.JoinSplit | script.js:55 | joining the pieces of a split with the separator gives the input back |
| Text.SplitJoin | script.js:55 | splitting the join of separator-free pieces gives the pieces back |
| Text.SplitNoSeparator | script.js:55 | a text without a line break is a single piece |
| Text.SplitAppend | script.js:55 | the pieces of `a + '\n' + b` are those of `a` followed by those of `b` |
| Text.Join | script.js:64 | `join(sep)`: the pieces with `sep` between neighbours; `JoinSplit`, `SplitJoin` and `JoinContains` state what it gives |
| Text.JoinContains | script.js:64 | every piece occurs in `join(sep)` at its offset |
| HexInput.DropEmpty | script.js:55 | `filter(code => code !== '')` keeps only non-empty members of its input |
| HexInput.DropEmptyMembers | script.js:55 | the filter keeps a string iff it occurs in its input and is non-empty |
| HexInput.DropEmptyAppend | script.js:55 | the filter preserves order across concatenation |
| HexInput.TrimAll | script.js:55 | `map(code => code.trim())` gives one trimmed string per line, none longer than its line |
| HexInput.TrimAllAppend | script.js:55 | `map(trim)` preserves order across concatenation |
| HexInput.TrimAllKeepsOut | script.js:55 | trimming every line keeps each line trimmed and adds no character |
| HexInput.Tokenize | script.js:55 | every token is non-empty, has no whitespace at either end and holds no line break |
| HexInput.TokenizeLines | script.js:55 | a line break separates tokens: the tokens of `a + '\n' + b` are those of `a` followed by those of `b` |
| HexInput.TokenizeJoinedLines | script.js:55 | text made of lines yields exactly those lines, trimmed, the blank ones dropped, in order |
| HexInput.TrimKeepsValidCode | script.js:55 | a valid code is left unchanged by `trim()` |
| HexInput.TokenizeLine | script.js:55 | a single line gives its trimmed text, or nothing when it is blank |
| HexInput.InvalidCodes | script.js:62 | the filter returns no more codes than it is given, and every one it returns is invalid |
| HexInput.InvalidCodesAppend | script.js:62 | the filter keeps input order |
| HexInput.InvalidCodesMembers | script.js:62 | a code is reported iff it occurs in the input and is invalid |
| HexInput.InvalidCodesEmpty | script.js:62-63 | nothing is reported iff every code is valid |
| HexInput.ProcessColors | script.js:52-72 | the request goes through iff there is a code, every code is valid and the count is a number in 1..20; otherwise the error is the first failing check, and the invalid-codes error lists exactly the invalid codes in input order |
| HexInput.ErrorMessage | script.js:58-70 | the three texts `showError` receives; the invalid-codes message, and only it, starts with `Invalid hexcodes: ` |
| HexInput.ErrorMessageListsCode | script.js:64 | the invalid-codes message names every offending code after the prefix `Invalid hexcodes: ` |
| HexDecode.HexDigitValue | script.js:89 | a hex digit is worth 0..15, case-insensitively |
| HexDecode.LowerHexDigit | script.js:89 | the digit-level inverse of the decoder, defined for the round-trip proofs (the program never writes a code): each value below 16 has a lower-case digit that reads back as it |
| HexDecode.DigitRoundTrip | script.js:89 | reading a digit and writing it back gives it in lower case |
| HexDecode.LStrip | script.js:88 | `lstrip('#')` removes exactly the leading run of `#` |
| HexDecode.StripHash | script.js:88 | a valid code loses exactly its one `#` |
| HexDecode.ParseHex | script.js:89 | `int(digits, 16)` read most significant digit first; `k` digits give a value below `16^k` |
| HexDecode.ParseHexPair | script.js:89 | `int(pair, 16)` is `16 * d1 + d2`, in 0..255 |
| HexDecode.PairAt | script.js:89 | the slice `hex_color[i:i+2]` is two hex digits that read as that channel |
| HexDecode.HexToRgb | script.js:87-89 | the three channels are the pairs at 0, 2 and 4, each in 0..255 |
| HexDecode.ByteDigits | script.js:89 | part of the decoder's inverse, defined for the round-trip proofs (the program never writes a code): a byte has two lower-case hex digits that read back as it |
| HexDecode.RgbToHex | script.js:89 | the decoder's inverse, defined for the round-trip proofs (the program never writes a code): writing a byte triple out yields a valid code |
| HexDecode.DecodeEncode | script.js:87-89 | decoding the code of a colour gives the colour back |
| HexDecode.ChannelRoundTrip | script.js:89 | a channel written back out gives its two digits in lower case |
| HexDecode.EncodeDecode | script.js:87-89 | decoding a code and writing it back gives the code in lower case |
| HexDecode.HexToRgbIgnoresCase | script.js:87-89 | codes that differ only in letter case decode alike |
| LchSort.KeyLess | script.js:105 | the key `lambda pair: (pair[0][2], pair[0][1], pair[0][0])` compared as a Python tuple: hue, then chroma, then lightness |
| LchSort.KeyTotal | script.js:105 | the key `(H, C, L)` orders coordinates strictly and totally |
| LchSort.KeyNotLessTrans | script.js:105 | "not below" in key order is transitive |
| LchSort.Insert | script.js:105 | insertion adds exactly one occurrence of the element |
| LchSort.InsertSorted | script.js:105 | insertion keeps a sorted sequence sorted |
| LchSort.SortColorsLch | script.js:103-105 | the result is a permutation of the colours in non-decreasing key order |
| LchSort.WithLchMember | script.js:105 | the colours with given coordinates are exactly those members |
| LchSort.InsertWithLch | script.js:105 | insertion puts the element before all colours with equal coordinates |
| LchSort.SortStable | script.js:105 | colours with equal keys keep their input order |
| LchSort.SortColorsLchIsStableSort | script.js:103-105 | the result is sorted and stable |
| LchSort.SortedGroupsDetermine | script.js:105 | two sorted sequences with the same colour order for every key are equal |
| LchSort.StableSortUnique | script.js:103-105 | any sorted, stable rearrangement equals `SortColorsLch` |
| PaletteAssembly.ColorTable | script.js:93-101 | the table built from the codes and the labels gives them back as its `'Hexcode'` and `'cluster'` columns |
| PaletteAssembly.Hexcodes | script.js:95 | the `'Hexcode'` column has one entry per row |
| PaletteAssembly.Labels | script.js:101 | the `'cluster'` column has one entry per row |
| PaletteAssembly.ClusterColors | script.js:109-110 | a cluster's selection is never longer than the table |
| PaletteAssembly.ClusterColorsMembers | script.js:109-110 | a code is selected for `cluster` iff some row carries that code and that label |
| PaletteAssembly.ClusterColorsAppend | script.js:109-110 | the selection keeps table order: selecting from a concatenation concatenates the selections |
| PaletteAssembly.GroupedPalette | script.js:107-111 | `sorted_colors` after the first `c` iterations: the sorted clusters `0..c-1` one after another; `AssemblePalette` is proved to compute it |
| PaletteAssembly.AssemblePalette | script.js:107-111 | the loop builds the sorted clusters 0..k-1 one after another; with labels in range the result is a permutation of the input codes |
| PaletteAssembly.GroupedPaletteStep | script.js:111 | one more iteration appends a permutation of the next cluster's codes |
| PaletteAssembly.ColorsBelowStep | script.js:108-109 | raising the label bound by one adds exactly that cluster's codes |
| PaletteAssembly.ColorsBelowAll | script.js:101 | with every label in range, every code lies below the bound |
| PaletteAssembly.ColorsBelowNone | script.js:108 | no code lies below label 0 |
| PaletteAssembly.GroupedPaletteHolds | script.js:107-111 | the first `c` blocks hold exactly the codes labelled below `c` |
| PaletteAssembly.PalettePermutation | script.js:107-111 | every input code appears in the palette exactly as often as in the input |
| PaletteAssembly.ColorsBelowLength | script.js:108-109 | the number of codes below `c + 1` is that below `c` plus cluster `c`'s size |
| PaletteAssembly.GroupedPaletteLength | script.js:107-111 | after `c` iterations the palette holds as many codes as are labelled below `c` |
| PaletteAssembly.GroupedPalettePrefix | script.js:107-111 | the palette after fewer iterations is a prefix of the later one |
| PaletteAssembly.PaletteBlocks | script.js:107-111 | cluster `c` occupies exactly its block of positions, holding its members sorted by `sort_colors_lch` |
| PaletteAssembly.BlocksAscend | script.js:108 | blocks are in ascending label order |
| PaletteAssembly.EmptyClusterAddsNothing | script.js:109-111 | a label no row carries adds nothing |
| PaletteAssembly.ClusterColorsAbsent | script.js:109 | a label no row carries selects no code |
| PaletteAssembly.SingleCluster | script.js:107-111 | with one cluster the palette is the whole input, sorted |
| PaletteAssembly.ClusterColorsAll | script.js:109-110 | with one cluster, cluster 0 selects every code in table order |
| PaletteAssembly.PaletteOfCodes | script.js:92-111 | a table built from codes and in-range labels gives a palette with the codes' length and multiset |
| PaletteAssembly.AcceptedInputPalette | script.js:52-111 | for a request `processColors` accepts and labels in `0..n-1`, the palette holds exactly the tokens of the textarea, each as often as entered |

## Left out

- Loading Pyodide and its packages (script.js:1-36) is not modelled: it is asynchronous I/O.
- The page is not modelled: `showError`, `hideError`, the loading banner and the plot (script.js:38-46, 74-75, 133-140). The model returns the error as a value, and `ErrorMessage` is the text `showError` receives.
- Reading the textarea and the number field is not modelled. Their contents are the parameters `hexInput` and `numClusters`.
- `parseInt` itself is not modelled (leading whitespace, trailing garbage, fractions). Its outcome arrives as an `Option<int>`, with `None` standing for `NaN`.
- The division by 255 and the colormath conversion to LCHab are not modelled (script.js:89-90, 95, 104): they are floating point. The coordinates a code gets are the oracle `lch`, and only their order matters to the sort.
- `StandardScaler` and `KMeans` are not modelled (script.js:96-101): they are foreign numerical code. The labels they produce are the `cluster` field of each `Row`.
- The JSON splicing into the Python source, the `value` column and the plotly figure are not modelled (script.js:92-93, 113-130). They do not affect the order of `sorted_colors`.
- Strings are sequences of Unicode scalar values, while JavaScript strings are UTF-16 code units. With every separator, whitespace and hex-digit character in the Basic Multilingual Plane, no modelled operation behaves differently, but lone surrogates cannot be represented.
- The `catch` path that displays "An error occurred" is not modelled (script.js:135-137): it covers failures of the foreign code.
- HexDecode.HexToRgb: requires a code that passed `isValidHexCode`, which is the only kind `processColors` hands on. Python's `int(_, 16)` on other text (signs, `0x`, underscores, surrounding spaces) is not modelled.
- LchSort.SortColorsLch: sorts the colours by key rather than the `zip` pairs of coordinates and colours. Because the key reads only the coordinates and `sorted` is stable, both give the same colour order, so the pairs are not modelled.
- PaletteAssembly.AssemblePalette: its permutation clause assumes every label lies in `0..n_clusters-1`, as `KMeans.fit_predict` guarantees. Without that assumption the loop simply skips rows with other labels, and the method's first clause still describes that result.
