# Photo gallery: listing resolution and tab state

A Dafny model of the logic in `script.js` of a static photo-gallery site.
The page asks a directory-listing API for the files of one tab's image
folder. It keeps the image files, sorts them and draws one tile per file.
When the listing cannot be used it shows the photos named in a built-in
size table instead. Clicking another tab switches the current tab and asks
for that tab's listing.

The model has seven modules:

- `Options` (options.dfy): an optional value, for a lookup or a match
  that may find nothing.
- `Strings` (strings.dfy): ASCII lower-casing, the default string order of
  `Array.prototype.sort`, and a sort by that order. Any sorted arrangement
  of the same elements equals the sort's result (`SortedUnique`).
- `Extensions` (extensions.dfy): the extension that the regular expression
  `/\.[^.]+$/` extracts, and the image-name test over the five recognised
  extensions.
- `Metadata` (metadata.dfy): the `imageMetadata` table, with its nine
  entries as the source writes them, and the sorted fallback list of its
  keys.
- `Resolver` (resolver.dfy): `fetchImages` once the network call has
  produced an outcome. That outcome is a `Listing`: either the payload's
  entries, or one of four failures. The function returns the sorted image
  names, or the fallback list.
- `Gallery` (gallery.dfy): the data part of `renderGallery`. It builds one
  tile per name, in order, with the `src` URL and the size when the table
  has the file.
- `Tabs` (tabs.dfy): the global `currentTab` and the tiles in the `.gallery`
  element. It models page load, the click handler, listing arrival, and a
  run over any interleaving of clicks and arrivals, with the listings that
  run requests (`Tabs.RunRequested`).

Three facts about `script.js` shape the model:

- An arriving listing is drawn under whatever tab is current when it
  arrives, with no check that it belongs to that tab (script.js:109-110).
  A late answer for an earlier tab therefore shows under the later tab,
  with the later tab's folder in every URL
  (`Tabs.LateArrivalDrawnUnderCurrentTab`).
- When the listing cannot be used, the list is the sorted keys of
  `imageMetadata` (script.js:42).
- Duplicate names in a listing are kept, each as often as it occurs.

## Model

| member | source | states |
|---|---|---|
| Strings.Lower | script.js:32 | `toLowerCase()` on ASCII: the result has the same length and each character is that character lower-cased |
| Strings.LessEq | script.js:36 | definition of the default `.sort()` order: the empty string comes first, otherwise the first characters decide and, when equal, the rest |
| Strings.Insert | script.js:36 | inserting into a sorted sequence gives a sorted sequence with the new element added once and nothing else changed |
| Strings.Sort | script.js:36 | the result is in ascending order and is a permutation of the input, with every multiplicity kept |
| Strings.SortedUnique | script.js:36 | two sorted sequences with the same elements and multiplicities are equal, so any sort agrees with this one |
| Strings.SortOfSorted | script.js:36 | sorting a sequence that is already ascending returns it unchanged |
| Strings.SortIgnoresOrder | script.js:36 | the sorted result depends only on the multiset of names, not on their order in the input |
| Strings.LessEqTotal | script.js:36 | any two strings are comparable in the sort order |
| Strings.LessEqAntisymmetric | script.js:36 | two strings that each sort no later than the other are equal |
| Strings.LessEqTransitive | script.js:36 | the sort order is transitive |
| Strings.LowerChar | script.js:32 | an ASCII capital becomes the matching small letter, every other character is kept, and so a dot stays a dot and nothing else becomes one |
| Extensions.MatchesAt | script.js:32 | definition of a `/\.[^.]+$/` match at position i: a dot at i, at least one character after it, and no dot after i |
| Extensions.IsImageName | script.js:29-34 | a name is an image exactly when the lower-cased name has a `/\.[^.]+$/` match and the text from that match to the end is one of the five extensions |
| Extensions.LastDot | script.js:32 | finds the position of the last dot, or reports that the name has no dot |
| Extensions.Extension | script.js:32 | returns the match of `/\.[^.]+$/`: the suffix from a dot with at least one character after it and no later dot; returns nothing exactly when no position matches |
| Extensions.MatchIsUnique | script.js:32 | the expression matches at most one position, so the leftmost match is the only one |
| Extensions.ExtensionAt | script.js:32 | wherever the expression matches, the extension is exactly the text from that dot to the end |
| Extensions.ExtensionOfLower | script.js:32 | the extension of the lower-cased name is the lower-cased extension of the name |
| Extensions.ImageNameIgnoresCase | script.js:32-33 | a name is an image exactly when its extension, lower-cased, is one of the five, and exactly when its lower-cased form is an image |
| Extensions.NoDotIsNotImage | script.js:32-33 | a name without a dot is dropped |
| Extensions.TrailingDotIsNotImage | script.js:32-33 | a name ending in a dot is dropped |
| Extensions.ImageNameHasDot | script.js:32-33 | every accepted name contains a dot |
| Extensions.InnerExtensionIgnored | script.js:32-33 | `a.jpg.txt` is dropped: only the last extension counts |
| Extensions.UpperCaseAccepted | script.js:29-33 | `IMG.JPG` is accepted although its extension is upper-case |
| Extensions.JpegName | script.js:29-33 | a dot-free base followed by `.jpg` is accepted |
| Metadata.TableOf | script.js:2-12 | the object literal's keys are the table's keys, and an entry no later entry overrides gives that key's size |
| Metadata.TableLookup | script.js:3-11 | each of the nine photos maps to the width and height written beside it |
| Metadata.KeysOf | script.js:42 | `Object.keys`: one key per entry, in the order the literal writes them |
| Metadata.FallbackNames | script.js:42 | the fallback list is ascending and is a permutation of the keys as the literal writes them |
| Metadata.KeysDistinct | script.js:2-12 | no key is written twice in the literal, so the written order is the order `Object.keys` reports |
| Metadata.FallbackNamesOnce | script.js:42 | each key of the table appears in the fallback list exactly once |
| Metadata.FallbackNamesAreKeys | script.js:42 | a name is in the fallback list exactly when it is a key of the table |
| Metadata.FallbackNamesValue | script.js:3-11 | the fallback list is `photo-01.jpg` to `photo-09.jpg` in that order |
| Metadata.FallbackNamesAreImages | script.js:3-11 | every fallback name would itself pass the image filter |
| Resolver.Names | script.js:35 | `.map(file => file.name)`: one name per entry, in listing order |
| Resolver.ImageNames | script.js:30-34 | keeps only image names, each with its multiplicity in the input, and drops every other name |
| Resolver.ImageNamesKeepsImages | script.js:30-34 | a list made only of image names passes the filter unchanged |
| Resolver.Resolve | script.js:17-44 | the result is ascending on both paths; on success it holds each image name as often as the listing does and no other name; on a failed call or an entry without a string name it is the fallback list |
| Resolver.ResolveIsSortedPermutation | script.js:30-36 | on success the result is the one ascending arrangement of exactly the accepted names |
| Resolver.ResolveOfImages | script.js:30-36 | a listing of image names only resolves to its ascending arrangement |
| Resolver.ResolvedAreImages | script.js:29-34 | on success every returned name has a recognised extension |
| Resolver.ImageNameKept | script.js:30-35 | every listed image name is returned in its original spelling |
| Resolver.ResolveIgnoresListingOrder | script.js:30-36 | listings with the same names, in any order, resolve to the same list |
| Resolver.MalformedEntryFallsBack | script.js:31-42 | one entry without a string name sends the whole listing to the fallback list |
| Resolver.ResolvedNamesHaveDot | script.js:60 | every resolved name contains a dot, so it can never be a key that `imageMetadata` inherits from `Object.prototype` |
| Gallery.ImagePath | script.js:56 | the URL is the images directory, then the folder, then a slash, then the file name, and nothing else |
| Gallery.SizeOf | script.js:60-63 | a size is given exactly when the file is a key of the table, and it is the table's size for that file |
| Gallery.Render | script.js:51-67 | one tile per name in the same order; each tile carries its name and URL, and a size exactly when the name is a table key, equal to the table's entry |
| Gallery.RenderKeepsNames | script.js:51-67 | reading the file names back from the tiles gives the input names |
| Gallery.RenderAppend | script.js:51-67 | rendering a concatenation gives the concatenation of the renderings |
| Gallery.ImagePathInjective | script.js:56 | within one folder, two files have the same URL only if they are the same file |
| Gallery.FallbackTilesAreSized | script.js:60-63 | every tile drawn from the fallback list has a size |
| Tabs.Load | script.js:14 | on page load the current tab is `sport`, nothing is drawn yet, and the `sport` listing is requested |
| Tabs.LoadThenArrive | script.js:71-76 | the first listing is drawn under `sport`, because tab clicks are wired only after it is drawn |
| Tabs.Click | script.js:86-109 | a click on the current tab changes nothing and requests nothing; a click on another tab makes it current before its listing arrives and requests that listing |
| Tabs.Arrive | script.js:109-110 | an arriving listing leaves the tab unchanged and is drawn with the resolved names, every URL in the folder of the tab current at arrival and every size the table's size for that name |
| Tabs.RequestIffTabChanges | script.js:89-109 | a listing is requested exactly when the click changes the tab, and the request is for the new current tab |
| Tabs.ClickIdempotent | script.js:89-91 | clicking the same tab a second time changes nothing and requests nothing |
| Tabs.SwitchThenArrive | script.js:106-110 | a switch whose listing arrives before another click shows that listing under the new tab |
| Tabs.LastArrivalWins | script.js:109-110 | a later arrival replaces the whole gallery of an earlier one |
| Tabs.LateArrivalDrawnUnderCurrentTab | script.js:106-110 | after clicks on A and then B, A's late listing is drawn under B with B's folder in its URLs |
| Tabs.Run | script.js:84-110 | over any events, no two consecutive requests are for the same tab, the first is not for the starting tab, the last is for the final current tab, and no request means no tab change |
| Tabs.LastClickedFirst | script.js:106 | the last click read from the end agrees with the tab after the first event followed by the last click of the rest |
| Tabs.RunEndsOnLastClicked | script.js:106 | after any events the current tab is the one clicked last, or the starting tab if there was no click |
| Tabs.RequestedFirst | script.js:89-109 | the requests read from the end agree with the first event's request (a click on a tab other than the current one) followed by the requests of the rest |
| Tabs.RunRequested | script.js:89-109 | a run requests exactly one listing per click on a tab other than the one current at that moment, in click order, each for the tab clicked, and nothing else |
| Tabs.ArrivalsOnly | script.js:109-110 | a run made only of arrivals requests nothing, keeps the tab and shows the last arrival |

## Left out

- The network call, `response.ok`, `response.json()` and the API URL (script.js:18-26) are not modelled. Their outcome is the `Listing` input: a payload of entries, or one of four failures that the code treats alike: `fetch` rejects, the status is not ok, the body is not JSON so `response.json()` rejects (script.js:26), or the JSON is not an array so `.filter` throws.
- Entry fields other than `name` are left out. The code ignores them; a directory called `x.jpg` would pass the filter.
- DOM construction, `innerHTML`, `loading = 'lazy'`, and the class and ARIA updates of the tabs (script.js:48-66, 94-103) are not modelled. They only draw. The model keeps the data each tile is built from.
- Listener wiring and `DOMContentLoaded` (script.js:71-84) are left out. `Tabs.Run` takes clicks and arrivals in any order, including orders the page cannot produce, such as a click before the first listing is drawn (`Tabs.LoadThenArrive` covers the real start). In the page every arrival answers exactly one request: the one made on load (script.js:73) or by a tab-changing click (script.js:109). What the code does not do is check, when it draws, which tab the listing was for: script.js:110 reads the global `currentTab` at that moment. `Tabs.Run` additionally accepts an arrival with no outstanding request, or two arrivals for one request. Every property stated over `Run` holds for all event sequences, so it also holds for the ones the page produces.
- The scroll-to-top button (script.js:116-145) is left out: it is window and scroll handling only.
- `console.error` (script.js:40) is left out: it is logging only.
- Strings.LowerChar: lower-cases ASCII capitals only, where `toLowerCase` covers all of Unicode and can change a string's length (U+0130 becomes two code points). The lower-cased form is used only to test the extension; names are returned in their original spelling either way. The test could differ only for a non-ASCII character that lower-cases to a dot or to a letter of `jpg`, `jpeg`, `png`, `gif` or `webp` (U+212A, the Kelvin sign, lower-cases to `k`, which none of them uses); the model does not treat such characters.
- Strings.Sort: compares characters as Unicode scalar values, where `Array.prototype.sort` compares UTF-16 code units. The two orders differ only between characters above U+FFFF and characters in U+E000 to U+FFFF.
- Gallery.SizeOf: looks up the table's own keys only. In the code, `imageMetadata[filename]` also finds keys inherited from `Object.prototype`, such as `toString`. Those keys contain no dot, and `Resolver.ResolvedNamesHaveDot` shows that no resolved name lacks one.
