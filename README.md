# I18n translation switcher, modelled in Dafny

The page script `js/i18n.js` defines an `I18n` class. It loads one JSON translation document per language ("en", "fr"). It resolves dotted keys such as `nav.home` against the document of a language. It rewrites the text of every `[data-i18n]` element whose key resolves, and it keeps the chosen language in local storage and in the page's `lang` attributes.

This project models that class:

- `wrappers.dfy`: `Option`. It stands for `null`/`undefined` results and for an absent storage entry.
- `keys.dfy` (module `Keys`): JavaScript's `key.split('.')` as `Split`, and `join('.')` as `Join`. Lemmas prove that the two are inverse.
- `documents.dfy` (module `Documents`): a translation document is a `Node`, either a `Leaf(string)` or a `Branch(map<string, Node>)`. `Child` is one step `value = value[k]`, and `Resolve` is the walk over all segments. Lemmas characterise the walk:
  - it is a fold over the segments (`ResolveAppend`);
  - a missing segment means not-found, in both directions (`MissingSegment`, `NotFoundSegment`);
  - a found node is the end of a segment-by-segment descent, in both directions (`DescentResolves`, `ResolvedDescent`).
- `i18n.dfy` (module `Translations`):
  - functions for the starting language, the document chosen by `applyLanguage` and `getText`, and the apply pass over a sequence of targets, with lemmas about them;
  - the class `I18n`. Its fields are `currentLanguage`, `stored` (the storage slot), `catalog` (the loaded documents), `targets` (an array of `(key, text)` elements updated in place), `hasSwitcher`/`switcherLang` (the `language-switcher` element and its `data-current-lang` attribute) and `htmlLang`.
  - `GetText` is the loop of `getText`, proved equal to the recursive `Resolve`. `ApplyLanguage` and `SetLanguage` are proved against the apply-pass function.
  - `GetStoredLanguage` and `GetCurrentLanguage` are plain reads of `stored` and `currentLanguage` (js/i18n.js:29-31, 74-76). The contracts of `SetLanguage` and the constructor state the language state through them.

JavaScript truthiness is modelled where the code tests it:
- `getStoredLanguage() || 'en'` treats a stored empty string as absent.
- `translations[lang] || {}` treats a document that is the empty string as absent.
- `if (text)` skips a not-found key and an empty-string leaf.

A path that ends at an object is truthy. The code then assigns the object to `textContent`, which shows `"[object Object]"` for an ordinary object; `TextContent` writes that text for every object.

Two facts about the code shape the model:
- `setLanguage` (js/i18n.js:33-40) has no same-language guard, so it always re-runs the apply pass.
- The only switcher state is one `data-current-lang` attribute (js/i18n.js:57); no per-button active marking exists.

## Model

| member | source | states |
|---|---|---|
| `Keys.Split` | js/i18n.js:63 | splitting a key on '.' gives exactly one more segment than the key has dots, and no segment contains a dot |
| `Keys.JoinSplit` | js/i18n.js:63 | joining the segments of a key with '.' gives back the key |
| `Keys.SplitJoin` | js/i18n.js:63 | splitting the '.'-join of a non-empty sequence of dot-free segments gives back those segments |
| `Documents.Truthy` | js/i18n.js:49 | every object is truthy, and a string is truthy exactly when it is non-empty |
| `Documents.Resolve` | js/i18n.js:64-71 | the walk over no segments returns the document itself; a walk that finds something over a non-empty path first steps into an object holding the first segment (its full characterisation is in the lemmas below) |
| `Documents.Child` | js/i18n.js:67-68 | one step of the walk finds a child exactly when the node is an object holding that key, and then it is that key's value; a leaf has no children |
| `Documents.TextContent` | js/i18n.js:50 | the text written for a truthy value is never empty, and a string leaf is written as itself |
| `Documents.ResolveAppend` | js/i18n.js:64-69 | walking `p + q` is walking `p`, then walking `q` from the node reached; not-found after `p` stays not-found |
| `Documents.MissingSegment` | js/i18n.js:66-69 | if some segment is absent from the node reached by the segments before it, the whole lookup is not-found |
| `Documents.NotFoundSegment` | js/i18n.js:66-69 | conversely, a not-found lookup has a segment that is absent from the node reached by the segments before it |
| `Documents.DescentResolves` | js/i18n.js:63-71 | when every segment is present, descending one by one in key order, the lookup returns the last node reached |
| `Documents.ResolvedDescent` | js/i18n.js:63-71 | conversely, a found value is the end of such a descent from the document root |
| `Documents.EmptyResolvesNothing` | js/i18n.js:43 | the `{}` fallback document resolves no key |
| `Translations.StartLanguage` | js/i18n.js:4 | the starting language is the stored preference when it is present and non-empty, otherwise 'en'; it is never empty |
| `Translations.DocFor` | js/i18n.js:43 | the apply pass uses the loaded document of the language when it is present and truthy, and `{}` otherwise (absent or falsy); either way the document is truthy |
| `Translations.PickDoc` | js/i18n.js:62 | `getText` walks the passed document when it is truthy; otherwise it walks the current language's document or `{}`, exactly as `DocFor` picks it; always truthy |
| `Translations.Lookup` | js/i18n.js:63-71 | `getText` on a given document: a string document or the `{}` document finds no key, because a split key always has a segment |
| `Translations.ApplyTarget` | js/i18n.js:47-51 | one element of the pass keeps its key, is never blanked, and changes only when its key resolves to a truthy value |
| `Translations.ApplyAll` | js/i18n.js:46-52 | the apply pass keeps the number of targets and every target's key |
| `Translations.ApplyMissKeepsText` | js/i18n.js:48-51 | a key that is not found, or that resolves to an empty string, leaves its target exactly as it was |
| `Translations.ApplyLeafWritesText` | js/i18n.js:48-51 | a key that resolves to a non-empty string writes that string into its target and changes nothing else |
| `Translations.ApplyNeverBlanks` | js/i18n.js:49-51 | the apply pass never blanks a target: a text that is empty afterwards was empty before |
| `Translations.ApplyIdempotent` | js/i18n.js:42-52 | applying the same language twice in a row leaves the targets as one application does |
| `Translations.ApplyUnloaded` | js/i18n.js:43-51 | for a language with no loaded document, the apply pass leaves every target unchanged |
| `Translations.NavHomeFound` | js/i18n.js:61-72 | with the document {"nav": {"home": "Home"}}, `nav.home` resolves to the leaf "Home" |
| `Translations.NavMissingNotFound` | js/i18n.js:61-72 | with the same document, `nav.missing` is not found |
| `Translations.NavThroughLeafNotFound` | js/i18n.js:61-72 | with the same document, `nav.home.extra` is not found, because `home` is a leaf |
| `Translations.I18n.constructor` | js/i18n.js:3-7 | the initial language is `StartLanguage` of the stored preference; no document is loaded yet; the page state is as given |
| `Translations.I18n.GetText` | js/i18n.js:61-72 | the loop over the split key returns exactly what the recursive walk returns on the chosen document |
| `Translations.I18n.ApplyLanguage` | js/i18n.js:42-59 | every target becomes what the apply pass makes of it, in place; the switcher's attribute becomes the language when the switcher exists; nothing else changes |
| `Translations.I18n.SetLanguage` | js/i18n.js:33-40 | afterwards the current language, the stored preference and the html `lang` are the new language, and the apply pass for it has run, even if it already was the current language; the catalog is unchanged |
| `Translations.I18n.FinishInit` | js/i18n.js:9-18 | once the loads have settled, the catalog holds the documents that loaded, and the apply pass for the current language has run; the language state is unchanged |

## Left out

- Loading (`loadLanguage`, js/i18n.js:20-27) and the `Promise.all` join are network I/O with asynchronous completion. `FinishInit` takes the documents that loaded (any subset of "en" and "fr", a failed load being simply absent) as a parameter.
- Before the loads settle, `setLanguage` and `getText` may be called; the model allows this and sees an incomplete catalog. The interleaving of individual load completions with other calls is not modelled.
- `localStorage` is the `stored` field. The DOM queries (`querySelectorAll`, `getAttribute`, `getElementById`) are the fixed `targets` array and the `hasSwitcher`/`switcherLang` fields. Fresh enumeration of elements on every pass is not modelled: the set of elements is fixed for the object's lifetime.
- `console.log` and `console.error` have no modelled effect.
- The page-load singleton `new I18n()` at js/i18n.js:80 is not modelled.
- JavaScript dynamic typing in the path walk is simplified. Leaves are terminal, so descending past a string gives not-found. In JavaScript, a segment such as `length` or `0` on a string returns a value, and a segment such as `toString` on an object returns an inherited function.
- ApplyAll: treats targets as independent records. In the DOM, writing a parent's `textContent` (js/i18n.js:50) removes the nested `[data-i18n]` elements inside it, and a not-found parent's text changes when a child inside it is rewritten. ApplyMissKeepsText therefore describes only targets that are not nested in one another.
- SetLanguage: always completes. `localStorage.setItem` (js/i18n.js:35) can throw a quota or security error; the current language would then already be changed, with no apply pass and no html `lang` update. `getItem` in the constructor (js/i18n.js:30) can throw the same way.
- DocFor: looks up only the languages the catalog holds. `this.translations[lang]` (js/i18n.js:43, 62) is a plain-object lookup, so a code such as `constructor` finds an inherited, truthy member where the model gives `{}`.
- TextContent: writes `"[object Object]"` for every object. An object whose own `toString` key holds a string (key `a` in `{"a": {"toString": "x"}}`) makes the conversion at js/i18n.js:50 throw a TypeError. That aborts the `forEach`, so later targets and the switcher stay untouched; the model does not capture that abort.
- JSON values other than strings and objects are not modelled: numbers, booleans, `null` (descending into it throws) and arrays (which would print as their comma-joined contents).
