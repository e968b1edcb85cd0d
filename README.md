# Vertical tabs sidebar: the tab list

A Dafny model of the tab list kept by the vertical tabs sidebar extension
(`vertical_tabs_sidebar/sidebar.js`). The sidebar mirrors the tabs of the
current window as a searchable vertical list. In the extension the
`<ul id="tab-list">` element is both the store and the view. Here each row
(`<li class="tab-item" id="tab-<id>">`) is an `Entry` record holding the tab
id, the title text, the icon source and the `active` and `hidden` classes, and
the list is an ordered `seq<Entry>`.

- `JsString`: the two string builtins the search uses, `toLowerCase` (on ASCII
  letters) and `includes`.
- `Tabs`: the data (`Tab`, `ChangeInfo`, `Entry`), the icon choice, the two DOM
  lookups (`getElementById` and `querySelector('.active')`, both returning the
  first match), and one function per handler giving the list after it runs.
- `Sidebar.TabList`: the list as the extension keeps it, a class whose field
  `entries` each handler changes in place. Every method's postcondition ties
  the new list to the matching function of `Tabs` and says which invariants
  the handler keeps.
- `TabProperties`: what the handlers promise, proved for all inputs: the
  filter predicate, idempotence, empty query, the add/remove round trip, the
  activation marker, and the preservation of distinct ids and of "at most one
  active row".
- `Scenarios`: a startup, a search and an activation run, and three
  behaviours the handlers show.

JavaScript truthiness is modelled directly. A missing `title`, `favIconUrl`,
`url` or `status` is the empty string, because the code treats `undefined` and
`""` the same at every use (`textContent = undefined` renders as empty).

Two expectations one would have of the list do not always hold in the code,
and the model follows the code:

- One would expect exactly one active row. `addTabElement` marks a new
  active tab without clearing the row already marked (sidebar.js:51-52), so
  two rows can be active (`Scenarios.AddKeepsOldActive`). `TabProperties.AddConsistent`
  keeps "at most one active row" only when the added tab is inactive or no row
  was active. Activation clears only the first active row
  (`Scenarios.ActivateClearsOnlyFirst`). `TabProperties.ActivatedConsistent`
  shows that activation restores the property from any list with at most one
  active row: afterwards exactly the row for the id is active. Activating the
  newly added tab, with both it and one older row marked, clears the older
  row first and so also ends with one active row
  (`TabProperties.ActivateNewRestoresOne`).
- One would expect a row to be visible iff its title matches the current
  query. The code only recomputes `hidden` on a keystroke. Added rows are
  always shown (`Scenarios.AddIgnoresFilter`), and a title update does not
  re-filter.
- The code never checks for duplicate ids. Lookups take the first row with
  the id, and distinct ids are an assumption of the lemmas that need them.

## Model

| member | source | states |
|---|---|---|
| `JsString.LowerChar` | vertical_tabs_sidebar/sidebar.js:10-13 | ASCII capitals map to the matching small letter; every other character is kept |
| `JsString.ToLower` | vertical_tabs_sidebar/sidebar.js:10-13 | lower-casing keeps the length and lowers each character in place |
| `JsString.Includes` | vertical_tabs_sidebar/sidebar.js:14 | `includes` is true iff the pattern occurs at some index of the text |
| `JsString.IncludesEmpty` | vertical_tabs_sidebar/sidebar.js:14 | the empty query is included in every title |
| `Tabs.IconFor` | vertical_tabs_sidebar/sidebar.js:59-71 | icon preference: the tab's non-empty favicon; else the favicon service plus the hostname of a non-empty URL that parses; else the bundled default; never empty |
| `Tabs.EntryFor` | vertical_tabs_sidebar/sidebar.js:47-108 | the row `addTabElement` builds carries the tab's id and title, is active iff the tab is, is visible whatever the current query, and shows the non-empty icon `IconFor` chooses |
| `Tabs.IndexOfId` | vertical_tabs_sidebar/sidebar.js:112-113 | the lookup finds the first row with the id, or reports that no row has it |
| `Tabs.IndexOfActive` | vertical_tabs_sidebar/sidebar.js:136-139 | the lookup finds the first active row, or reports that none is active |
| `Tabs.Loaded` | vertical_tabs_sidebar/sidebar.js:41-45 | the list after a bulk load has one row per queried tab, in the returned order, each with that tab's id, title, active flag and icon, none hidden |
| `Tabs.Matches` | vertical_tabs_sidebar/sidebar.js:13-14 | a title matches iff the lower-cased query occurs in the lower-cased title; the empty query matches every title |
| `Tabs.Filtered` | vertical_tabs_sidebar/sidebar.js:9-20 | every row is hidden iff its lower-cased title does not contain the lower-cased query; ids, titles, icons, active flags and order are unchanged |
| `Tabs.Refreshed` | vertical_tabs_sidebar/sidebar.js:115-124 | a refreshed row keeps its id, active and hidden flags; its title is replaced only by a non-empty new title; its icon is the snapshot's favicon on a completed load, else a non-empty new favicon, else the old icon |
| `Tabs.Updated` | vertical_tabs_sidebar/sidebar.js:111-125 | a missing id changes nothing; otherwise only the first row with the id changes; its title is replaced only by a non-empty new title; its icon is the snapshot's favicon on a completed load, else a non-empty new favicon, else the old icon; ids, active and hidden flags never change |
| `Tabs.Removed` | vertical_tabs_sidebar/sidebar.js:127-132 | a missing id changes nothing; otherwise the first row with the id is cut out and the rest keep their order |
| `Tabs.Deactivated` | vertical_tabs_sidebar/sidebar.js:136-139 | with no active row nothing changes; otherwise the first active row loses its marker and every other row is unchanged |
| `Tabs.Activated` | vertical_tabs_sidebar/sidebar.js:134-147 | only active flags change; the row for the id becomes active; the first previously active row is cleared unless it is that row; every other row keeps its flag |
| `Sidebar.TabList.constructor` | vertical_tabs_sidebar/sidebar.js:2 | the list starts empty, and so consistent |
| `Sidebar.TabList.Load` | vertical_tabs_sidebar/sidebar.js:41-45 | the list becomes one row per queried tab in the returned order, with nothing left from before; consistent when the host's tabs have distinct ids and at most one active |
| `Sidebar.TabList.Add` | vertical_tabs_sidebar/sidebar.js:47-109 | one row is appended and earlier rows are unchanged; the new row has the tab's id and title, is active iff the tab is, is not hidden and shows `IconFor`; consistency is kept for a fresh id that does not add a second active row |
| `Sidebar.TabList.Update` | vertical_tabs_sidebar/sidebar.js:111-125 | the new list is `Updated` of the old one; consistency is kept |
| `Sidebar.TabList.Remove` | vertical_tabs_sidebar/sidebar.js:127-132 | the new list is `Removed` of the old one; with distinct ids before, the id is gone, no other id is lost and ids stay distinct; at most one active row stays so |
| `Sidebar.TabList.Activate` | vertical_tabs_sidebar/sidebar.js:134-147 | the new list is `Activated` of the old one; distinct ids stay distinct; from at most one active row, exactly the row for the id is active afterwards, or none when the id is not listed |
| `Sidebar.TabList.Filter` | vertical_tabs_sidebar/sidebar.js:9-20 | the loop over all rows leaves the list `Filtered` by the query; consistency is kept |
| `TabProperties.LoadedIds` | vertical_tabs_sidebar/sidebar.js:41-45 | after a bulk load, the listed ids are exactly the queried tabs' ids |
| `TabProperties.LoadedConsistent` | vertical_tabs_sidebar/sidebar.js:41-52 | host tabs with distinct ids and at most one active give a list with the same two properties |
| `TabProperties.IndexOfIdAppended` | vertical_tabs_sidebar/sidebar.js:108-113 | a row appended with an id not yet listed is the one the id lookup finds |
| `TabProperties.AddConsistent` | vertical_tabs_sidebar/sidebar.js:47-52 | appending a row with a fresh id, active only if no row was, keeps ids distinct and at most one row active |
| `TabProperties.AddThenRemove` | vertical_tabs_sidebar/sidebar.js:47-132 | adding a tab with a fresh id and then removing that id restores the previous list |
| `TabProperties.RemovedIds` | vertical_tabs_sidebar/sidebar.js:127-132 | with distinct ids, removal takes out exactly the id and keeps the other ids distinct |
| `TabProperties.RemovedAtMostOneActive` | vertical_tabs_sidebar/sidebar.js:127-132 | removal never leaves two active rows where there was at most one |
| `TabProperties.UpdatedConsistent` | vertical_tabs_sidebar/sidebar.js:111-125 | an update keeps the set of ids, their distinctness and the at-most-one-active property |
| `TabProperties.ActivatedConsistent` | vertical_tabs_sidebar/sidebar.js:134-147 | if at most one row was active, afterwards a row is active iff it is the first row with the id |
| `TabProperties.ActivatedKeepsIds` | vertical_tabs_sidebar/sidebar.js:134-147 | activation keeps the set of ids and their distinctness |
| `TabProperties.ActivateNewRestoresOne` | vertical_tabs_sidebar/sidebar.js:47-147 | after a new tab with a fresh id arrives active beside at most one older marked row, activating it leaves exactly the new row active |
| `TabProperties.ActivatedAbsent` | vertical_tabs_sidebar/sidebar.js:141-146 | activating an unlisted id leaves no row active, if at most one was active |
| `TabProperties.FilteredConsistent` | vertical_tabs_sidebar/sidebar.js:12-19 | filtering keeps ids distinct and at most one row active |
| `TabProperties.FilterIdempotent` | vertical_tabs_sidebar/sidebar.js:10-18 | applying the same query twice gives the same list as applying it once |
| `TabProperties.FilterForgetsPrevious` | vertical_tabs_sidebar/sidebar.js:12-19 | the outcome of a filter does not depend on the hidden flags an earlier query left |
| `TabProperties.FilterEmptyShowsAll` | vertical_tabs_sidebar/sidebar.js:10-18 | the empty query unhides every row |
| `Scenarios.StartupRendersInOrder` | vertical_tabs_sidebar/sidebar.js:41-60 | loading [GitHub (active), Gmail] gives two rows in that order, only the first active, both visible, both with the default icon |
| `Scenarios.SearchGit` | vertical_tabs_sidebar/sidebar.js:9-20 | the query "git" keeps "GitHub" visible and hides "Gmail" |
| `Scenarios.ActivateGmail` | vertical_tabs_sidebar/sidebar.js:134-147 | activating tab 2 takes the marker from row 1 and puts it on row 2 |
| `Scenarios.AddIgnoresFilter` | vertical_tabs_sidebar/sidebar.js:47-108 | a row added while "git" is typed is shown although "Gmail" does not match |
| `Scenarios.AddKeepsOldActive` | vertical_tabs_sidebar/sidebar.js:51-52 | adding an active tab leaves the old active row marked, so two rows are active |
| `Scenarios.ActivateClearsOnlyFirst` | vertical_tabs_sidebar/sidebar.js:136-139 | with two active rows and an unlisted id, the second row stays active |

## Left out

- The host calls `chrome.tabs.query`, `chrome.tabs.update` and `chrome.tabs.remove` are foreign, fire-and-forget requests. `Load` takes the query's result as a parameter. The row click, close button and middle-click handlers (sidebar.js:82-85, 92-106) only issue requests and never change the list, so they are not modelled. In particular, middle-click does not remove the row locally.
- Event-listener registration and `async`/`await` (sidebar.js:1-37, 43). `Load` runs as one step after the query returns. A notification handled while the query is pending could add a row that the bulk load then adds again; that interleaving is not modelled.
- `scrollIntoViewIfNeeded` (sidebar.js:149-152) only scrolls the view.
- The `img.onerror` fallback to the default icon (sidebar.js:61) happens when the browser fails to load an image; the model keeps the icon URL the code assigns.
- URL parsing (`new URL(...)` and `hostname`) is the parameter `UrlParser`: any function from a URL to its hostname, or `None` where the constructor throws.
- JsString.ToLower: lowers ASCII letters only; JavaScript's full Unicode case mapping (which can also change a string's length) is not modelled.
- DOM element construction, CSS class names and the `tab-<id>` string are not modelled; rows are keyed by the integer tab id, which that string encodes one-to-one.
- Rows are values inside the list, not shared DOM nodes. No handler keeps a row across events except the click closures, which are left out above.
