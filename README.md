# doubledollar.js core, modelled in Dafny

doubledollar.js is a small browser helper library. Almost all of it delegates
to browser APIs. This project models the three pieces that hold logic of their
own, plus the visibility toggle:

- **Mustache rendering** (`renderreact` with `regex.mostach`). The template
  markup is cloned once. Each render makes one global pass of
  `/\{\{((?:.|\r?\n)+?)\}\}/g` over it. Every match is replaced by
  `$data[inner.trim()]`, which is `undefined` for a missing key. Module
  `Mustache` (Mustache.dfy) models the regular expression as a scanner over
  `string`. The scanner is leftmost. It needs at least one inner unit. It is
  lazy, so it closes at the first `}}`. Its units are any character except a
  line terminator, `\n`, or `\r\n`. The scanner is proved equal to a
  reference definition of a match (`IsPlaceholder`). For any template, the
  render pass is proved to copy the text before the first match, replace that
  match, and resume right after it; a template with no match is copied whole.
  So every placeholder is replaced, all other text is copied, and inserted
  values are never rescanned.
- **Reactive binding** (`react`, `walkDataProps`, `defineReactive`). Class
  `Reactive.React` (Reactive.dfy) holds:
  - the template snapshot;
  - the set of keys whose accessor pair is installed;
  - the two value cells of each key (instance side and `$data` side);
  - the rendered markup (`$el.innerHTML`);
  - a render counter.

  `SetData` and `SetInstance` replay the source's mutual write chain as two
  mutually recursive methods. Their contracts give the whole new state:
  - an equal write (`===`) changes nothing;
  - a real change stores the value in both cells;
  - a change renders exactly once, from the template and the current data.
- **Cookie strings** (`getCookie`, `setCookie`). Module `Cookies`
  (Cookies.dfy) holds:
  - `Split`, proved inverse to `Join`;
  - the imperative `GetCookie` loop, proved equal to the specification
    function `CookieValue`;
  - index-based lemmas for the first match, for no match, and for "no `;` in
    the result";
  - `FormatCookie`, with `session` as the default expiry, and a lemma that
    `CookieValue` reads the written value back from the formatted string.
- **Visibility toggle** (`toggle`). Class `Visibility.Element` (Visibility.dfy).

Values stored under data keys are strings or integral numbers of magnitude at
most 2^53 (`Mustache.Value`), the range in which every integer is exactly a
JavaScript number. `===` between them is datatype equality, so the string
`"2"` and the number `2` differ, as in JavaScript. Such integers are rendered
in decimal, as JavaScript prints them.

`regex.mostach` itself has no `g` flag, which could suggest that a render
replaces only the first placeholder. The render callback wraps it in
`new RegExp(regex.mostach, "g")` (doubledollar.js:347), so every placeholder
is replaced. The model follows the code.

## Model

| member | source | states |
|---|---|---|
| Mustache.NatText | doubledollar.js:348 | the decimal text of a number is non-empty, all digits, and has no leading zero |
| Mustache.ParseNatText | doubledollar.js:348 | the decimal text of a number reads back as that number, so distinct numbers render distinctly |
| Mustache.TrimStartSpec | doubledollar.js:348 | the result is the suffix left after removing exactly the leading whitespace and line terminators |
| Mustache.TrimEndSpec | doubledollar.js:348 | the result is the prefix left after removing exactly the trailing whitespace and line terminators |
| Mustache.TrimIsSlice | doubledollar.js:348 | trim gives a slice of the key text, cuts only whitespace, and leaves neither end of the result whitespace |
| Mustache.TrimPadded | doubledollar.js:348 | trimming whitespace padding around a stripped key gives the key |
| Mustache.CloseFrom | doubledollar.js:337 | the lazy inner part stops only at a `}}`, at or after where it started, and only after one unit |
| Mustache.MatchAt | doubledollar.js:337 | a match at i ends with `}}` and has at least one inner character |
| Mustache.LazyAdvance | doubledollar.js:337 | reading one unit (a non-terminator character, `\n`, or `\r\n`) keeps the text scanned so far made of units with no early `}}`, and does not change where the match closes |
| Mustache.LazyStuck | doubledollar.js:337 | where no unit can be read (a lone `\r`, U+2028, U+2029 or the end) the attempt fails, and no later `}}` could close a match |
| Mustache.CloseFromIsLazy | doubledollar.js:337 | from any unit boundary, the lazy inner scan closes at c exactly when c is the first `}}` after the first unit and the text before it is made of units |
| Mustache.MatchAtIsPlaceholder | doubledollar.js:337 | the scanner matches at i with closer c if and only if the reference definition holds: `{{`, at least one unit, no lone `\r` or U+2028/2029, and the first `}}` |
| Mustache.RenderCopiesPrefix | doubledollar.js:346-349 | text in which no placeholder starts is copied to the output unchanged, and the pass continues after it |
| Mustache.RenderWithoutPlaceholder | doubledollar.js:346-347 | a template with no match renders to itself |
| Mustache.KeyTextIsPlaceholder | doubledollar.js:337 | `{{k}}` is one match ending at its own `}}` exactly when k is non-empty units text with no `}}` after its first character and, when longer than one character, does not end with `}` (`IsKeyText`) |
| Mustache.RenderPlaceholder | doubledollar.js:346-349 | a template opening with a match `{{k}}` (any k for which that is one match) gives the value under the trimmed key, and scanning resumes right after its `}}` |
| Mustache.RenderMissingKey | doubledollar.js:348 | a match whose trimmed key is absent renders as `undefined` |
| Mustache.RenderIgnoresPadding | doubledollar.js:348 | `{{ name }}` and `{{name}}` render identically whenever both are single matches |
| Mustache.RenderFirstPlaceholder | doubledollar.js:346-349 | for any template whose first match is at i ending at c: the text before i is copied, the match becomes the value under its trimmed key, and the pass resumes at c+2 on the template, not on the inserted value |
| Mustache.RenderReplacesEveryPlaceholder | doubledollar.js:346-349 | a template assembled from literal pieces (no `{{` inside, no final `{`) and placeholders renders to the pieces with every placeholder replaced (global flag); inserted values are not rescanned |
| Mustache.LiteralHasNoPlaceholder | doubledollar.js:337 | text with no `{{` and no final `{` starts no match, whatever follows it |
| Mustache.RenderDependsOnlyOnKeys | doubledollar.js:341-349 | the output depends only on the template snapshot and the data values under the keys it names |
| Reactive.React.constructor | doubledollar.js:325-333 | for data without `$el` or `$data` keys (where the source throws), construction snapshots the markup, installs accessors for exactly the initial keys with both cells equal to the initial data, and renders exactly once |
| Reactive.React.Rerender | doubledollar.js:343-350 | a render sets the markup to the template rendered from current data and counts one render; nothing else changes |
| Reactive.React.DefineReactive | doubledollar.js:360-367 | installing an accessor starts its cell at the current `$data[key]`; the data-side call marks the key as intercepted |
| Reactive.React.WalkDataProps | doubledollar.js:353-358 | after the walk every key of `$data` has both accessors and its instance cell equals its data cell; nothing is rendered |
| Reactive.React.SetData | doubledollar.js:368-375 | an equal write is a no-op; a change stores the value in both cells and renders exactly once; an uninstalled key is a plain store with no render; the cells stay equal |
| Reactive.React.SetInstance | doubledollar.js:368-377 | an equal write is a no-op; a change stores the value in both cells and, from equal cells, renders exactly once; the cells stay equal |
| Reactive.BindThenWrite | doubledollar.js:325-379 | binding and then writing a new value shows the template rendered from the new value after two renders in all; writing the same value again changes nothing |
| Cookies.Split | doubledollar.js:159 | `split(';')` yields at least one part, no part holds `;`, and joining the parts gives back the input |
| Cookies.SplitField | doubledollar.js:159 | a separator-free field followed by `;` splits off as the first part |
| Cookies.SplitJoin | doubledollar.js:159 | splitting a join of separator-free parts recovers the parts |
| Cookies.StripSpaces | doubledollar.js:162-164 | only leading U+0020 spaces are removed, and the result starts with no space |
| Cookies.GetCookie | doubledollar.js:156-170 | the loop returns the value the specification function `CookieValue` gives |
| Cookies.FirstValueIsFirstMatch | doubledollar.js:160-167 | the value is the text after `cname=` in the first segment that starts with it once its leading spaces are removed |
| Cookies.FirstValueNoMatch | doubledollar.js:169 | with no matching segment the value is the empty string |
| Cookies.CookieValueHasNoSemicolon | doubledollar.js:156-170 | the value read never contains `;` |
| Cookies.FormatCookieFields | doubledollar.js:145-149 | the written string has exactly the fields `key=val`, ` expires=E` and ` path=P`, with E `session` when expires is null or undefined |
| Cookies.SetThenGetCookie | doubledollar.js:145-170 | parsing the string setCookie formats gives back the value under its key, whatever the expiry and path |
| Visibility.ToggleIsTwoState | doubledollar.js:91-95 | after a toggle the visibility is `visible` or `hidden` and differs from before; from there two toggles return to the same state |
| Visibility.Element.Toggle | doubledollar.js:91-95 | `visible` becomes `hidden`; any other visibility becomes `visible` |

## Left out

- The DOM: `$el` is the markup string given to the constructor. A selector that matches nothing would make `cloneNode` throw; that fatal case is not modelled. Browser normalisation of `innerHTML` on read or write is not modelled either.
- JavaScript values other than strings and integral numbers of magnitude at most 2^53. This excludes NaN, objects compared by identity, and floating point. It also excludes larger integers: a double there stands for several integers (`2**53` and `2**53 + 1` are `===`), and its text is the shortest round-tripping digits padded with zeros (`2**60` prints as `1152921504606847000`), up to the exponent form from 1e21.
- Property lookup through the prototype chain: a key such as `toString` is treated as absent.
- Lone UTF-16 surrogates: characters are Unicode scalar values, and the pattern's `.` treats each the same way.
- Reactive.React.constructor: initial data with a key named `$el` or `$data` is excluded by its precondition. The source throws a TypeError there: the instance accessor for `$el` makes the first render assign `innerHTML` on a string, and a `$data` key makes the data-side `defineProperty` run on a non-object. Reactive.BindThenWrite excludes those keys for the same reason.
- Mustache.RenderReplacesEveryPlaceholder: a literal piece holding `{{` or ending with `{` would change where matches start, so the piece-by-piece statement excludes it; templates of that kind are covered by RenderFirstPlaceholder and RenderWithoutPlaceholder, which hold for every template.
- Reactive.React.SetInstance: writing the instance's own `$el` or `$data` property, which would replace the binding's element or data object, is not modelled. Other keys without an accessor are plain stored values.
- Cookies.GetCookie: `decodeURIComponent` is not applied; the cookie string is taken as already decoded. Because the source decodes before splitting, an encoded `%3B` inside a value would split it; that effect is therefore not captured. Nor is the URIError that decoding throws on a malformed escape anywhere in the cookie string (such as `a=100%`), where the source throws instead of returning a value or `''`.
- The browser cookie jar: `document.cookie` does not echo what is written. `SetThenGetCookie` is about the two string functions only.
- Cookies.FormatCookie: a `path` of `null` (which prints as `null`) is not distinguished from a given string; None stands for an omitted, undefined path.
- `storage`, `load`, `loadWithPass`, `read`, `vibrate`, `textToImg`, `redirect`, `recycle`, `addScript`, `addStyle`, the `navigator` data block, `on`, `hide`, `show`, `attr`, `css`, `append`, `prepend`, `text`, `remove`, `addElm`, `html` and the `$$(sel, 1)` shortcut. Each is a single call into a browser API (local storage, network, speech, vibration, canvas, navigation, custom elements, element access).
- `fingerprint` and `checkFingerprint`: they call a `hash()` that the file does not define.
