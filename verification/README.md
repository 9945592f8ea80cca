# JSON viewer and base converter of the bitlyx utility page, in Dafny

This project models the logic of the bitlyx developer-tools page (`main.js`):

- the **JSON viewer**: how a parsed document becomes a tree of display nodes (key spans, value spans, braces, commas), how the search box highlights and counts matching spans and expands the nodes above every match, and how the disclosure toggles behave;
- the **JSON page handlers** as a state machine: typing into the text box, typing into the search box, clicking a toggle, and the format, minify and clear buttons;
- the **base converter**: typing into one of the decimal, hexadecimal, binary and octal fields rewrites the other three, with `parseInt` and `Number.prototype.toString(radix)` modelled over mathematical integers, as sections 19.2.5 and 21.1.3.6 of ECMA-262 describe them.

Modules, one per file:

- `Options` (`options.dfy`): `Option` and the `Result` of `JSON.parse`.
- `Text` (`text.dfy`): the ECMAScript white-space set, `trim`, `toLowerCase` and `includes`.
- `Json` (`json.dfy`): the parsed value and JavaScript truthiness.
- `RenderTree` (`render_tree.dfy`): the tree builder `createTreeNode` and the child-index paths of the display tree.
- `TreeSearch` (`tree_search.dfy`): the searched spans, `performSearch`, the ancestor walk and the toggle.
- `JsonSession` (`json_session.dfy`): the page state and its handlers.
- `Numerals` (`numerals.dfy`): `parseInt` and integer `toString(radix)`.
- `BaseConverter` (`base_converter.dfy`): the converter's input handler.

The DOM is replaced by values:

- A display node is a `Leaf`: key span, value span and comma. Or it is a `Branch`: key span, open brace, children and footer.
- A node is named by its path of child indices from the root.
- A span is named by its node's path and its kind (key or value).
- The collapsed nodes and the highlighted spans are sets of these names.
- The ancestor walk of `performSearch` becomes the set of prefixes of a path.

Quirks of the code that the model keeps:

- After a failed parse, the code keeps the previous document and the previous tree on screen and only sets the error line.
- A document that parses to `null` cannot be told apart from "no document" (both are JavaScript `null`). Its tree is empty, and the match counter keeps its old text. The format and minify buttons ignore documents that are falsy: `null`, `false`, `0` and `""`.
- The serialiser is the host's `JSON.stringify`. The repository states no round-trip property of its own for it.
- A search leaves collapsed flags removed after the term changes.

## Model

| member | source | states |
|---|---|---|
| RenderTree.Build | main.js:42-103 | The node is composite exactly for objects and arrays. It has a key span exactly when a key is given, and that span's text is `"key": `. No comma follows it exactly when it is built as last. String values show as `"` + text + `"`, with no escaping; numbers and booleans show their literal text; null shows `null`. Arrays get `[`/`]` and unkeyed children. Objects get `{`/`}` and children keyed in member order. Only the final child is built as last. |
| RenderTree.Render | main.js:105-111 | The root is built with no key and as last, so it has no key span and no trailing comma. |
| RenderTree.BuildWellFormed | main.js:55-77 | Throughout the built tree, braces match, footers are the close brace with or without a comma, exactly the final child of each composite has no comma, and children carry key spans exactly inside objects. |
| RenderTree.UnbuildBuild | main.js:42-103 | The document can be read back from its display tree: one node per JSON value, the same shape, order, keys and scalars. |
| RenderTree.BuildInjective | main.js:42-103 | Two documents get the same display tree exactly when they are equal. |
| RenderTree.BuildNodeCount | main.js:68-71 | The builder makes exactly one node per JSON value. |
| RenderTree.AncestorsAreBranches | main.js:124-128 | Every proper ancestor the search walk visits is an object or array node. |
| TreeSearch.SpansExact | main.js:115 | The searched spans are exactly the key spans of all nodes and the value spans of scalar nodes, each with the text found at its path. A composite contributes only its key span, never its braces. |
| TreeSearch.SpansDistinct | main.js:115 | No span is listed twice. |
| TreeSearch.TreeHitIdsExact | main.js:120-121 | A span matches exactly when the lower-cased term is non-empty and occurs in the lower-cased span text. |
| TreeSearch.ScanSpans | main.js:118-130 | The pass over the spans clears each span's old highlight and highlights and counts exactly the matches. It removes the collapsed flag from every node on a match's chain and from no other node. |
| TreeSearch.ExpandChain | main.js:124-128 | Walking from a match's node up to the root removes the collapsed flag of that node and of each ancestor, and of nothing else. |
| TreeSearch.PerformSearch | main.js:113-132 | The handler's result equals the set-level description `Search`: count, highlights, collapsed flags and counter text. |
| TreeSearch.SearchHighlightsExactly | main.js:113-123 | After a search, exactly the matching spans of the tree are highlighted. Highlights from the previous search are gone. The count is their number. |
| TreeSearch.SearchDisclosesHits | main.js:121-128 | A search only removes collapsed flags. Every match's node and all its ancestors end up expanded. A collapsed node that is neither a match's node nor an ancestor of one stays collapsed. |
| TreeSearch.SearchCountText | main.js:131 | The counter reads `<count> matches`. With an empty term the count is 0, so it reads `0 matches`, and no collapsed flag changes. |
| TreeSearch.KeyedScalarCountsTwice | main.js:115-123 | In the document `{"k": "t"}`, a term found in both the key span and the value span counts two matches. |
| TreeSearch.Toggle | main.js:79-82 | A toggle click flips the collapsed flag of that composite node only. A path without a toggle changes nothing. |
| TreeSearch.ToggleTwice | main.js:79-82 | Two clicks on the same toggle restore the flags. |
| Text.Includes | main.js:121 | The scan answers true exactly when the term occurs somewhere in the text. |
| Text.TrimStart | main.js:137 | It removes the longest white-space prefix and nothing more. |
| Text.TrimEnd | main.js:137 | It removes the longest white-space suffix and nothing more. |
| Text.Trim | main.js:137 | `trim` never lengthens the text, and a non-empty result neither starts nor ends with white space. |
| Text.TrimIsSlice | main.js:137 | Trimmed text is a contiguous slice of the input, and everything cut away on either side is white space. |
| Text.TrimEmptyIffBlank | main.js:137-138 | Input counts as empty exactly when it is all white space. |
| Numerals.DigitPrefix | main.js:286 | `parseInt` reads the longest run of digits valid in the radix. |
| Numerals.Digits | main.js:290 | `toString(radix)` writes digits valid in the radix, letters in lower case, with no leading zero, and they denote the number. |
| Numerals.ToRadixString | main.js:290 | The text is never empty, starts with `-` exactly for negative numbers, reads `0` exactly for zero, and has no upper-case letter. Its round trip through `parseInt` is `ParseToRadixString`. |
| Numerals.ParseInt | main.js:286 | A radix other than 0 outside 2 to 36 and blank input give `NaN`, and only a leading `-` gives a negative result. What it reads from typed text is stated by the `ParseInt…` lemmas below. |
| Numerals.ParseIntReadsDigits | main.js:286 | Any run of digits valid in the radix, in either letter case and with leading zeros allowed, followed by anything that is not a digit, parses to the value of those digits. In radix 16 the text must not start with `0x`. |
| Numerals.ParseIntSigned | main.js:286 | A leading `+` keeps the value of the digits after it and a leading `-` negates it. |
| Numerals.ParseIntHexPrefix | main.js:286 | With radix 16 (or 0), a leading `0x` or `0X` is skipped and the hexadecimal digits after it are read. |
| Numerals.ParseIntNoDigit | main.js:286 | Text whose first character after an optional sign is not a digit of the radix, or that has nothing after the sign, is `NaN`. |
| Numerals.ParseToRadixString | main.js:286-290 | Parsing an integer's `toString(r)` text in radix `r` gives back the integer, for negatives and zero too. |
| Numerals.ParseIntStopsAtNonDigit | main.js:286 | `parseInt` ignores everything after the digits. The exception is radix 16, where a lone `0` followed by `x` starts a `0x` prefix. |
| Numerals.ParseIntSkipsWhiteSpace | main.js:286 | `parseInt` skips leading white space. |
| BaseConverter.OnInput | main.js:279-294 | The edited field is never written. Blank input empties the other three fields. Input `parseInt` rejects (NaN) changes nothing. Otherwise each other field shows the parsed integer in its own radix. |
| BaseConverter.OnInputAgrees | main.js:286-291 | After a conversion, each other field parses in its own radix to the integer the edited field denotes. |
| BaseConverter.OnInputIdempotent | main.js:279-294 | Running the handler again on the same field changes nothing more. |
| JsonSession.RunSearch | main.js:113-132 | A search keeps the text, document, tree, error and term. It only removes collapsed flags and expands the chain of every match. When the old highlights sit on the shown tree, exactly the matching spans are highlighted and the counter shows their number. An empty term changes no flag and the counter reads `0 matches`. |
| JsonSession.UpdateTreeView | main.js:105-111 | The container is emptied. A `null` document leaves it empty, with no search and the counter untouched. Any other document gets freshly built, fully expanded nodes, and re-runs the search: exactly the spans of the new tree that match the current term are highlighted, and the counter shows their number. |
| JsonSession.OnJsonInput | main.js:136-152 | Blank text drops the document, the tree, every collapsed flag and highlight, and clears the error; the counter reads `0 matches`. A parse error only sets the error to `Invalid JSON: ` + message and keeps the document and tree. A successful parse holds the new document, clears the error and discards all earlier collapse state. The tree is rebuilt unless the document is `null`, and then the search re-runs: exactly the spans of the new tree that match the current term are highlighted, and the counter shows their number. |
| JsonSession.OnTermInput | main.js:113-134 | Typing a term keeps the text, document, tree and error and re-runs the search. Collapsed flags are only removed, and every match's node and ancestors are expanded. When the old highlights sit on the shown tree, exactly the matching spans are highlighted and the counter shows their number. An empty term changes no flag and the counter reads `0 matches`. |
| JsonSession.Reprint | main.js:154-160 | Format and minify replace the text with the serialised document only when the document is truthy; otherwise nothing changes. |
| JsonSession.OnClear | main.js:162-169 | Clear empties the text, error, document, tree and term, and the counter reads `0 matches`. |
| JsonSession.Step | main.js:134-169 | Only the text box and clear change the document, the tree and the error line. Only the search box and clear change the term. A toggle click changes one collapsed flag and nothing else. Format and minify change only the text box. |
| JsonSession.JsonInputConsistent | main.js:136-152 | Whatever the page held, text that is blank or parses leaves the page consistent: the tree, flags, highlights and counter are all rebuilt from the new document. |
| JsonSession.ClearConsistent | main.js:162-169 | Whatever the page held, a cleared page satisfies the consistency invariant below. |
| JsonSession.RunSearchConsistent | main.js:113-132 | A search over the document's tree leaves exactly the matching spans highlighted and the counter showing their number. |
| JsonSession.StepConsistent | main.js:105-169 | Every handler keeps these true: the container shows exactly the held document's tree, only composite nodes are collapsed, exactly the spans matching the current term are highlighted, and the counter shows their number whenever a tree is shown. |

## Left out

- Clipboard copy (main.js:4-27): DOM selection, `execCommand` and a timed label reset. These are browser I/O and timing.
- The crypto section (main.js:173-265): thin wrappers over the crypto-js library, which is not part of this model, and over `decodeURIComponent`.
- `JSON.parse` and `JSON.stringify` are host built-ins. The parse outcome arrives with the text-box event as a `Result`. The serialiser is a function parameter of `Reprint`. No serialiser round trip is claimed.
- Number values are kept opaque. A number carries the text the host prints for it. Zero prints as `0`, which is how its truthiness is decided.
- BaseConverter.OnInput: for a numeral beyond the double range it writes the exact integer's digits into the other fields, where the page writes `Infinity` (see Numerals.ParseInt below).
- JsonSession.OnJsonInput: assumes building the tree never fails. The `try` around the parse also wraps `updateTreeView` (main.js:145-151), so a document nested too deep for the recursive builder would leave the new document held, the container empty and the error line reading `Invalid JSON: ` + message. Stack depth is a host limit, outside this model.
- The host's object key order and duplicate-key handling: an object's members arrive in the order `Object.keys` gives.
- Text.LowerChar: maps only the ASCII capitals `A`-`Z`. Other characters are left unchanged, so full Unicode case mapping (including mappings that change length) is not modelled.
- Text.Includes: works on Unicode code points, not UTF-16 code units. For well-formed strings, substring containment is the same either way.
- Numerals.ParseInt: returns the exact integer. It does not model the loss of precision above 2^53, nor that a numeral beyond the double range gives `Infinity` rather than `NaN`; there `BaseConverter.OnInput` writes the digits of the exact integer where the page shows `Infinity`. The radix is taken as already converted to an integer, because the page only passes 2, 8, 10 and 16.
- Numerals.ToRadixString: writes plain digits. It does not model the exponent form that radix-10 `toString` uses from 10^21 up.
- DOM plumbing: element creation, CSS classes used only for styling, event-listener registration. The value span's class is kept as the leaf's `ScalarKind`.
- The initial page content (the markup and the counter's initial text) is not part of this model. Consistency is proved for every state reached from a cleared page: `OnClear` produces a consistent state, and every handler keeps it.
- vite.config.js: build configuration only.
