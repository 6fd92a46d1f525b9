# Tab switcher and menu toggle of a static site, in Dafny

This project models the page script `assets/js/main.js` of a static personal
site. The script does two things:

- **Menu toggle.** A click on `.navbar-toggler` flips the class `show` on
  `.navbar-collapse`.
- **Tab switcher `openBlog(evt, blogName)`.** It works in four steps:
  1. Hide every `tabcontent` panel.
  2. Remove the first `" active"` from the class string of every `tablinks` link.
  3. Show the element whose id is `blogName`.
  4. Append `" active"` to the clicked element's class string.

  At load time the script clicks the element with id `defaultOpen`.

`JsString.dfy` models the string operation on line 18: `String.prototype.replace`
with a string pattern. It replaces the first match only, which it finds with
`indexOf`.

`PageScript.dfy` models the document as a store of elements in tree order.
Each element has an id, a `style.display` value and a `className` string.
- The two `getElementsByClassName` results are sequences of indices into the store.
- `Document.OpenBlog` updates the store in place, with the two loops of the source.
- The pure function `OpenBlogEffect` gives the store and outcome that `OpenBlog` produces.
- The lemmas state what the tab switcher guarantees in terms of `OpenBlogEffect`.

The menu's `classList` is a set of class tokens held by `NavbarCollapse`.

Two error cases in the code are exceptions, not silent no-ops:
- **Unknown `blogName`.** `document.getElementById` returns `null` and `.style`
  throws a TypeError at line 20. Both loops have already run by then, and
  line 21 never runs. `OpenBlog` returns `TypeError` in this case.
- **Missing menu elements.** A missing `.navbar-toggler` makes line 5 throw a
  TypeError while the handler is being attached. A missing `.navbar-collapse`
  leaves `el2` null: the handler is attached without error, and every click
  then throws a TypeError at line 6. Handler registration is not modelled (see
  below).

Two facts about line 18 shape the contracts:
- **One match is not enough.** A class string that holds `" active"` only once
  can still hold it after the removal: `"x act activeive"` becomes `"x active"`.
  So "the clicked link is the only active one" is proved under a stronger
  condition, `LinksWellFormed`. It requires each link's class string to hold no
  `" active"`, or to be such a string with `" active"` appended, which is the
  form line 21 produces. Every call of the tab switcher, completed or failed,
  preserves this condition.
- **The match may sit inside a longer token.** The first match can be part of a
  token such as `activeTab`, and removing it mangles that class.

## Model

| member | source | states |
|---|---|---|
| `JsString.IndexOf` | assets/js/main.js:18 | the result is a match at or after the start position, and no earlier position at or after it matches; no result means no match there |
| `JsString.ReplaceFirst` | assets/js/main.js:18 | a string without the pattern is returned unchanged; otherwise the length changes by the replacement's length minus the pattern's |
| `JsString.ReplaceFirstAt` | assets/js/main.js:18 | when `i` is the first match, the result is the text before `i`, then the replacement, then the text after the match |
| `JsString.ReplaceFirstKeepsLater` | assets/js/main.js:18 | only the first match is replaced: a later, non-overlapping match survives, shifted by the change in length |
| `JsString.ReplaceTrailing` | assets/js/main.js:18-21 | for a pattern whose first character does not recur in it, removing the pattern from `a + pattern`, where `a` holds no match, gives back `a` |
| `PageScript.GetElementById` | assets/js/main.js:20 | returns the first element in tree order whose id equals the name; returns none exactly when no element has that id; the empty id never matches |
| `PageScript.Document.OpenBlog` | assets/js/main.js:9-22 | the outcome and the new store equal `OpenBlogEffect` of the old store: the tabcontent loop, then the tablinks loop, then the show and mark steps or the TypeError |
| `PageScript.Document.Startup` | assets/js/main.js:24-25 | without a `defaultOpen` element, `null.click()` throws and nothing changes; otherwise it has the effect of `openBlog` with `defaultOpen` as the clicked element, where `TypeError` means the click handler threw |
| `PageScript.NamedPanelShown` | assets/js/main.js:20 | the call completes if and only if some element has the id `blogName`; that element then has display `block`, whether or not it is a panel |
| `PageScript.PanelsExclusive` | assets/js/main.js:13-20 | after a completed call, every tabcontent panel has display `none`, except the element found by id, which has `block` |
| `PageScript.LinksClearedThenClickedMarked` | assets/js/main.js:16-21 | each link's class string becomes `ReplaceFirst(old, " active", "")`; after a completed call, the clicked element's class string is its cleared (if it is a link) or old string with `" active"` appended, so it ends with `" active"` |
| `PageScript.MissingPanelThrows` | assets/js/main.js:13-21 | with no element of id `blogName`, the outcome is TypeError and both loops have run: panels are hidden, other displays are kept, links are cleared, and the clicked element is not marked |
| `PageScript.OthersUnchanged` | assets/js/main.js:9-22 | the store keeps its length and every id; an element that is not a panel, not a link, not the named panel and not the clicked element is unchanged |
| `PageScript.ClearThenMark` | assets/js/main.js:18-21 | clearing a well-formed link class string leaves it without `" active"`; appending `" active"` then gives the marked form |
| `PageScript.ReplaceTrailingActive` | assets/js/main.js:18-21 | clearing a marked class string and then re-marking it gives back the same string |
| `PageScript.ClickedIsOnlyActiveLink` | assets/js/main.js:17-21 | if all links are well formed, then after any call all links are still well formed, and a link contains `" active"` exactly when the call completed and that link was clicked; a clicked link is then the only active link, and a click on a non-link or a failed call leaves no active link |
| `PageScript.EffectAt` | assets/js/main.js:9-22 | after a completed call, each element is the result of hiding it if it is a panel, clearing it if it is a link, showing it if it is the named panel and marking it if it was clicked, in that order |
| `PageScript.SecondClearing` | assets/js/main.js:18-21 | clearing an already cleared well-formed link class string changes nothing; clearing the cleared string with `" active"` appended gives back the cleared string |
| `PageScript.OpenBlogIdempotent` | assets/js/main.js:9-22 | clicking the same link again for the same panel, after a completed call from well-formed links, completes and leaves the store as it was |
| `PageScript.SingleMatchCanReappear` | assets/js/main.js:18 | `"x act activeive"` holds `" active"` only at index 5, yet removing that match leaves `"x active"`, which contains `" active"` |
| `PageScript.OnlyMatchAtFive` | assets/js/main.js:18 | `" active"` occurs in `"x act activeive"` at index 5 and at no other index |
| `PageScript.ReplaceCutsInsideToken` | assets/js/main.js:18 | clearing `"tablinks activeTab"` gives `"tablinksTab"`: the first match lies inside the token `activeTab` |
| `PageScript.Toggled` | assets/js/main.js:6 | `DOMTokenList.toggle`: the token is in the result exactly when it was not in the input; every other token is kept |
| `PageScript.ToggleTwiceRestores` | assets/js/main.js:5-7 | toggling the same token twice gives back the original class set |
| `PageScript.NavbarCollapse.OnTogglerClick` | assets/js/main.js:5-7 | the class set becomes `Toggled(old, "show")`, so `show` is present afterwards exactly when it was absent before |

## Left out

- `tailwind.config.js` is build-time theme data (colours, fonts, container widths) with no runtime behaviour. It is not part of this model.
- The DOM queries on lines 2-3, 11 and 16 are not computed. `querySelector` and `getElementsByClassName` appear as given inputs: the collapse object and the two index sequences.
- `HTMLCollection` results are live in the DOM, but the model treats them as fixed snapshots. Line 18 can rewrite `"tablinks activex"` to `"tablinksx"`, which takes that element out of the live `tablinks` collection during the loop. This effect is not modelled.
- Handler registration on lines 2-5 is not modelled. This includes the TypeError at line 5 when `.navbar-toggler` is missing, and the TypeError at line 6 on each click when `.navbar-collapse` is missing. Event dispatch, `evt` objects and CSS rendering are also out of scope. The clicked element is an index into the store.
- `PageScript.Document.Startup` takes the panel name as a parameter, because the startup click's argument comes from HTML markup that is not part of this model. It models `.click()` as a direct call of `openBlog`.
- `PageScript.NavbarCollapse.OnTogglerClick` models `classList` as a set. The token order of `DOMTokenList` and the syncing of `classList` with the `class` attribute are not modelled. Token validation (a SyntaxError for an empty token, an InvalidCharacterError for whitespace) is not modelled either, because the only token used is the constant `show`.
- `JsString.ReplaceFirst` does not model the `$` substitution patterns of `GetSubstitution`, because the only replacement string used is `""`.
- `PageScript.Document.OpenBlog` does not model JavaScript's conversion of a non-string `blogName` to a string. The argument is already a string.
