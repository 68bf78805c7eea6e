# jQuery replaceText, modelled in Dafny

This project models the core of the jQuery plugin `replaceText` (v1.2): a
search-and-replace over the text nodes among the direct children of a DOM
element, which keeps every tag and attribute in place and keeps HTML entities
escaped.

It has two modules.

- `Entities` (`entities.dfy`) holds the entity codec. `entity_map.escape` is a
  five-entry object mapping `>` `<` `"` `'` `&` to `&gt;` `&lt;` `&quot;`
  `&#x27;` `&amp;`.
  - `BuildTables` is the setup loop. It fills the inverted object
    `entity_map.unescape` and the lists `unescapedChars` and `escapedChars`.
  - `EscapeAll` is the global replace with the character class
    `[><"'&]`: one left-to-right pass that swaps each matched character for
    its entity.
  - `UnescapeWith` / `UnescapeAll` is the global replace with the alternation
    `(&gt;|&lt;|&quot;|&#x27;|&amp;)`. At each position the first
    alternative that matches, in list order, is replaced (`MatchAt`), and the
    scan resumes after it.
  - `Esc`, `EscapeHtml` and `UnescapeHtml` add the guard that returns an
    empty string unchanged.
- `ReplaceText` (`replace_text.dfy`) holds the per-element body of
  `$.fn.replaceText`.
  - A child is a `Node`: `Text(id, value)`, `Other(id)` for element, comment
    and other non-text nodes, or `Markup(html)` for content inserted by the
    walk.
  - The element is a class `Element` whose `children` sequence the methods
    rewrite in place.
  - `Walk` is the `do … while (node = node.nextSibling)` loop, and
    `VisitChild` is its body for one child. The body escapes the value,
    applies the replacement `f` and skips an unchanged value. Otherwise it
    either writes back the unescaped new value or inserts the markup before
    the node and pushes the node onto `remove`.
  - `RemoveNodes` is the batch removal.
  - The functions `Visit`, `Walked`, `Pushed`, `Queued` and `Without` specify
    the loop and the removal.
  - `Piece` and `Rewritten` are an independent node-by-node description of
    the result. `RemovalAfterWalk` proves that the walk followed by the
    deferred removal gives exactly that result.

The call `val.replace(search, replace)` is a parameter `f: string -> string`,
an arbitrary pure total function on the escaped value. Pure replacements,
whether by a string, a regular expression with `$1` back-references or a
callback without side effects, all fall under it.

The round trip `UnescapeHtml(EscapeHtml(s)) == s` holds for every string,
including strings that already contain text such as `&amp;`. The escape
turns each `&` into `&amp;`, so every `&` in its output begins an entity the
escape itself wrote, and the unescape takes each one back. The code therefore promises more than a round trip restricted to
strings without entity substrings; the model proves the unrestricted one.

## Model

| member | source | states |
|---|---|---|
| `Entities.BuildTables` | jquery.ba-replacetext.js:98-105 | the loop over the escape object returns the inverted object (each entity mapped back to its character, a later pair winning) and the key and value lists in enumeration order |
| `Entities.TableOfKeys` | jquery.ba-replacetext.js:83-90 | an object literal's key set is exactly the keys of its pairs |
| `Entities.InvertedKeys` | jquery.ba-replacetext.js:98-100 | the inverted object's key set is exactly the values of the escape pairs |
| `Entities.InvertedIsInverse` | jquery.ba-replacetext.js:98-100 | with distinct keys and values, every pair is found both in the escape object and, reversed, in the inverted one |
| `Entities.TablesWrittenOut` | jquery.ba-replacetext.js:83-111 | the escape object, the inverted object, the character class and the alternation list are the five fixed entries, in source order |
| `Entities.EscapeUnescapeInverse` | jquery.ba-replacetext.js:83-105 | the escape object's keys are exactly the five raw characters, the unescape object has five entries, and each maps back to what the other maps it to |
| `Entities.EntityStringsShape` | jquery.ba-replacetext.js:104-110 | the five entity strings are prefix-free (so pairwise distinct), each non-empty and found in the unescape object, each starts with `&` and holds no other `&` |
| `Entities.EscapeChar` | jquery.ba-replacetext.js:119-121 | the replacement callback gives a non-empty string that starts with `&` exactly when the matched character is one of the five escaped ones |
| `Entities.EscapeAll` | jquery.ba-replacetext.js:109-121 | the replace with the character class `[><"'&]` never shortens its input |
| `Entities.UnescapeWith` | jquery.ba-replacetext.js:110-121 | a global replace with an alternation of non-empty strings never lengthens its input, and gives an empty result exactly for an empty input |
| `Entities.UnescapeAll` | jquery.ba-replacetext.js:110-121 | the replace with the entity alternation never lengthens its input, and gives an empty result exactly for an empty input |
| `Entities.Esc` | jquery.ba-replacetext.js:114-122 | `esc`'s guard followed by one global replace in the given direction; the guard never changes the result, since both replaces leave an empty string empty |
| `Entities.EscapeHtml` | jquery.ba-replacetext.js:124-126 | `escapeHtml` is the escape replace, whose result is never shorter than its input |
| `Entities.UnescapeHtml` | jquery.ba-replacetext.js:128-130 | `unescapeHtml` is the unescape replace, whose result is never longer than its input |
| `Entities.MatchAt` | jquery.ba-replacetext.js:110 | the alternation picks the first alternative in list order that the input starts with, or none when no alternative matches |
| `Entities.EmptyPassesThrough` | jquery.ba-replacetext.js:114-116 | an empty string comes back unchanged from both escape and unescape |
| `Entities.SamePrefix` | jquery.ba-replacetext.js:110 | two prefix-free alternatives that both match at one position are the same alternative |
| `Entities.EscapeCharCases` | jquery.ba-replacetext.js:119-121 | a character of the escape class becomes the entity paired with it, which the unescape object maps back to it; any other character is copied |
| `Entities.UnescapeEscapeChar` | jquery.ba-replacetext.js:119-121 | unescaping the replacement of one character gives that character back, whatever text follows |
| `Entities.RoundTrip` | jquery.ba-replacetext.js:114-130 | for every string, unescaping its escaped form gives back the original string |
| `Entities.EscapedIsSafe` | jquery.ba-replacetext.js:83-90 | escaped output holds no raw `<` `>` `"` `'`, and every `&` in it begins one of the five entity strings |
| `Entities.OrderIrrelevant` | jquery.ba-replacetext.js:110 | for prefix-free alternatives, any reordering of the alternation gives the same global replace |
| `Entities.EntityOrderIrrelevant` | jquery.ba-replacetext.js:108-111 | the five entity strings, listed in any order, unescape every string alike |
| `ReplaceText.Element.constructor` | jquery.ba-replacetext.js:134 | an element holds the given children, which are distinct nodes |
| `ReplaceText.Element.ReplaceText` | jquery.ba-replacetext.js:133-183 | the per-element body keeps the children distinct and leaves exactly the walk followed by the removal of the queued nodes, which equals the node-by-node result |
| `ReplaceText.Element.Walk` | jquery.ba-replacetext.js:142-179 | the loop visits each original child once in order and leaves the walked children; the remove list it returns is exactly the queued text nodes; distinct children stay distinct |
| `ReplaceText.Element.VisitChild` | jquery.ba-replacetext.js:148-176 | one iteration replaces the child by its visit (itself, itself rewritten, or markup followed by itself), returns the position of the next original child (stepping over inserted markup) and what it queued |
| `ReplaceText.Element.RemoveNodes` | jquery.ba-replacetext.js:182 | the batch removal takes out exactly the nodes whose identities were queued and keeps the order of the rest; distinct children stay distinct |
| `ReplaceText.WithoutDistinct` | jquery.ba-replacetext.js:182 | removing nodes by identity keeps distinct children distinct and brings in no new identity |
| `ReplaceText.WalkedDistinct` | jquery.ba-replacetext.js:142-179 | the walk keeps distinct children distinct, since inserted markup carries no identity |
| `ReplaceText.WalkAdvances` | jquery.ba-replacetext.js:145-178 | one visit keeps the loop invariant: the walked prefix grows by one original child and the remove list by what that child queued |
| `ReplaceText.RemovalAfterWalk` | jquery.ba-replacetext.js:161-182 | when nodes are distinct, removing the queued nodes after the walk gives the node-by-node result: deferring the removal loses nothing and removes nothing else |
| `ReplaceText.WalkThenRemove` | jquery.ba-replacetext.js:182 | the removal result keeps nodes distinct, and when nothing was queued the walked children are already the result |
| `ReplaceText.OthersPreserved` | jquery.ba-replacetext.js:145-178 | non-text children are never modified and keep their relative order |
| `ReplaceText.NoMatchNoChange` | jquery.ba-replacetext.js:159 | a replacement that changes no escaped text value leaves the children identical and queues nothing for removal |
| `ReplaceText.InPlaceRewrite` | jquery.ba-replacetext.js:161-174 | with text only, or no `<` in any new value, nothing is queued and every node keeps its identity and position, each text node holding the unescaped new value (for an unchanged node, its old value, by the round trip) |
| `ReplaceText.MarkupBeforeNode` | jquery.ba-replacetext.js:161-167 | a text node on the markup path has its markup immediately before it after the walk and is queued, with nothing else changed around it |
| `ReplaceText.MarkupReplacesNode` | jquery.ba-replacetext.js:161-182 | after the removal the markup of a markup-path text node stands in its place and the node's identity is gone |
| `ReplaceText.RemovesExactlyQueued` | jquery.ba-replacetext.js:167-182 | the identities left are exactly the old identities minus the queued ones |
| `ReplaceText.RewrittenIds` | jquery.ba-replacetext.js:164-182 | the result introduces no identity that was not among the children |
| `ReplaceText.RewrittenDistinct` | jquery.ba-replacetext.js:164-182 | distinct children stay distinct after the replacement |
| `ReplaceText.SlowPathNeedsNewLt` | jquery.ba-replacetext.js:153-161 | the markup path is taken only when the replacement itself introduced a `<`, since escaped values hold none |

## Left out

- The jQuery collection plumbing is not modelled. `this.each` over several elements and returning the collection for chaining (jquery.ba-replacetext.js:133) only wrap the per-element body.
- HTML parsing by `$(node).before(new_val)` is not modelled. Inserted content is one opaque `Markup` node, because parsing is a browser call. `$(node).before` is taken to insert its markup and do nothing else. Scripts that jQuery runs from inserted HTML are not modelled; they could change the children during the walk, so that not every original child is visited once in order. Only a replacement that brings in its own `<script>` can reach this, since escaped values hold no `<`.
- `String.prototype.replace` is abstracted as the parameter `f`. RegExp flags, back-references and callback argument lists are not modelled, and neither is a concrete literal replacement.
- `f` is the same pure total function for every text node. Stateful callbacks, a sticky (non-global) RegExp's `lastIndex` carried from one node to the next, and a throwing replacement (which aborts the loop and leaves inserted markup next to nodes that are never removed) are not modelled.
- JavaScript strings are sequences of UTF-16 code units, while a Dafny `string` holds Unicode scalar values, so a text value containing a lone surrogate cannot be represented. The five escaped characters are ASCII, so the codec does not depend on this.
- Null or undefined input to `esc` is not modelled, because a text node's `nodeValue` is always a string. Only the empty-string case of the falsy guard is modelled.
- Node types other than text (3) are all one `Other` kind. `nodeValue` is a plain string field, with no browser unescaping.
- Node identity is a number, and removal is by identity. `Element.Valid` requires distinct identities among text and other nodes, as DOM nodes are distinct objects.
- The `if (node)` guard before the `do … while` loop is a `while` loop that does not run on an empty child list.
- The tables are built by `BuildTables`, but the escape functions read constants equal to its results. A function cannot call a method.
- `BuildTables` enumerates only the object's own pairs. Inherited enumerable properties that `for … in` would also visit (for instance one added to `Object.prototype`, which would add its key to the escape character class) are not modelled.
- `BuildTables` does not model the loop variable `key`. The source never declares it (jquery.ba-replacetext.js:98), so the loop assigns a global `key`, which holds `'&'` afterwards; this leak is a defect of the source, not something the tables depend on.
