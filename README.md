# SauceDemo UI test suite: test data and inventory-page logic

The repository is an end-to-end browser test suite for the SauceDemo shop, built on
WebdriverIO. Nearly all of it hands work to the browser driver. This project models
the part that computes something without a browser:

- **The test-data provider** (`src/support/TestData.ts`): generated e-mail addresses,
  user names and passwords, the four SauceDemo accounts, the invalid credentials and
  the product names.
- **The inventory page object** (`src/pages/InventoryPage.ts`): the locator
  `addItemToCartByName` builds from a product name, the buttons `addItemToCart` and
  `removeItemFromCart` address by index, the cart count `getCartItemCount` derives
  from the badge, and the closed set of `sortProducts` options.

Inputs stand in for the clock and the random source:

- `Date.now()` is a `timestamp` parameter, bounded by the largest ECMAScript time
  value (8.64e15 ms).
- Each `Math.floor(Math.random() * n)` is a natural-number parameter below `n`.
- The `sort(() => Math.random() - 0.5)` shuffle is an arbitrary permutation. It is
  given as a sequence of picks, where the j-th pick chooses one of the characters
  not yet placed.

The page is modelled as what the driver resolves selectors against: its elements in
document order, each with its attributes. `$$(selector)` becomes `FindAll` and
`$(selector)` becomes `Find`, which gives `None` when nothing matches, so that a click
on it would fail. The badge read that can throw becomes an `Option<string>`.

Files:

- `wrappers.dfy`: `Option`.
- `js_text.dfy` (module `JsText`): the ECMAScript operations the core calls. These
  are the `\s` class, ASCII `toLowerCase`, `replace(/\s+/g, c)`, the decimal
  rendering of a whole number and `parseInt` without a radix.
- `test_data.dfy` (module `TestData`).
- `inventory_page.dfy` (module `InventoryPage`).

`generateRandomPassword` builds its string step by step, so it is a method with a
loop. Its contract ties the result to the specification functions `Unshuffled` and
`Shuffle`, and states outright the length, the class coverage and the alphabet.
Everything else in the core is an expression, so it is modelled as functions and
lemmas.

## Model

| member | source | states |
|---|---|---|
| `JsText.IsWhitespace` | src/pages/InventoryPage.ts:58 | the regular-expression class `\s`, which is also the set `parseInt` trims: the ECMAScript WhiteSpace characters (tab, vertical tab, form feed, space, no-break space, zero-width no-break space and the Unicode space separators U+1680, U+2000-U+200A, U+202F, U+205F, U+3000) and LineTerminator characters (line feed, carriage return, U+2028, U+2029) |
| `JsText.LowerChar` | src/pages/InventoryPage.ts:58 | an upper-case ASCII letter maps to its lower-case letter (32 code points on); every other character is kept; the result is never upper-case, and it is whitespace exactly when the input is |
| `JsText.ToLower` | src/pages/InventoryPage.ts:58 | `toLowerCase` keeps the length, leaves no upper-case letter, and keeps whitespace exactly where it was |
| `JsText.ToLowerFixedPoint` | src/pages/InventoryPage.ts:58 | `toLowerCase` leaves a string unchanged if and only if it has no upper-case letter |
| `JsText.DropWhitespace` | src/pages/InventoryPage.ts:58 | removes exactly the leading whitespace run: the result is a suffix, everything removed is whitespace, and the result is empty or starts with a non-whitespace character |
| `JsText.ReplaceWhitespaceRuns` | src/pages/InventoryPage.ts:58 | `replace(/\s+/g, sep)` never lengthens the string; each character of the result is `sep` or comes from the input; with a non-whitespace `sep`, the result has no whitespace |
| `JsText.ReplaceWhitespaceRunsIsScan` | src/pages/InventoryPage.ts:58 | replacing whole maximal runs equals a left-to-right scan in which a whitespace character emits `sep` only when it starts a run |
| `JsText.ReplaceWhitespaceRunsFixedPoint` | src/pages/InventoryPage.ts:58 | with a non-whitespace `sep`, the replacement leaves a string unchanged if and only if it has no whitespace |
| `JsText.NatToString` | src/support/TestData.ts:8 | the rendering of a whole number in a template literal is a non-empty string of decimal digits with no leading zero |
| `JsText.NatToStringRoundTrip` | src/support/TestData.ts:8 | reading the rendered digits back in radix 10 gives the number |
| `JsText.CanonicalDigitsRoundTrip` | src/support/TestData.ts:8 | rendering the value of a digit string with no leading zero gives that string back |
| `JsText.NatToStringLength` | src/support/TestData.ts:7-8 | a number below 10^k is rendered with at most k digits |
| `JsText.RadixPrefix` | src/pages/InventoryPage.ts:40 | the digit run `parseInt` reads is the longest prefix made of digits of the radix |
| `JsText.DigitPrefixOf` | src/pages/InventoryPage.ts:40 | when a digit run is followed by a non-digit, the longest digit prefix is exactly that run |
| `JsText.DigitSuffixOf` | src/support/TestData.ts:17 | when a digit run follows a non-digit, the longest digit suffix is exactly that run |
| `JsText.DropWhitespaceOf` | src/pages/InventoryPage.ts:40 | trimming stops at the first character that is not whitespace, whatever follows it |
| `JsText.RadixPrefixOf` | src/pages/InventoryPage.ts:40 | when a run of radix digits is followed by a non-digit of that radix, the longest radix prefix is exactly that run |
| `JsText.ParseInt` | src/pages/InventoryPage.ts:40 | `parseInt` with no radix trims the leading `\s` run, takes one optional sign, reads radix 16 after `0x`/`0X` and radix 10 otherwise, and takes the longest run of digits of that radix, NaN when the run is empty; its contract gives NaN for blank text and a negative number only after a leading `-` |
| `JsText.ParseIntOfParts` | src/pages/InventoryPage.ts:40 | on leading whitespace, at most one sign, a decimal digit run that is not a `0x` prefix and text that does not continue the run, `parseInt` returns the value of the run, negated after `-` |
| `JsText.ParseIntOfHexParts` | src/pages/InventoryPage.ts:40 | on leading whitespace, at most one sign, `0x` or `0X`, a run of hexadecimal digits and text that does not continue it, `parseInt` returns the run's value in radix 16, negated after `-`, and NaN when the run is empty |
| `JsText.ParseIntOfNoDigits` | src/pages/InventoryPage.ts:40 | `parseInt` returns NaN on leading whitespace, then a sign followed by anything but a digit (another sign or whitespace included), or else no sign and text that starts with neither a digit, whitespace nor a sign |
| `JsText.ParseIntOfDigits` | src/pages/InventoryPage.ts:40 | on a non-empty run of decimal digits, `parseInt` reads the whole run and returns its value |
| `JsText.ParseIntOfNatToString` | src/pages/InventoryPage.ts:40 | `parseInt` inverts the decimal rendering of every whole number |
| `JsText.ParseIntNotANumber` | src/pages/InventoryPage.ts:40 | text that does not start with whitespace, a sign or a digit parses to NaN |
| `TestData.ReadNumberOf` | src/support/TestData.ts:8 | a rendered number followed by a non-digit separator reads back as that number and the text after the separator |
| `TestData.ReadNumberFromEndOf` | src/support/TestData.ts:17 | a rendered number at the end, after a non-digit separator, reads back as that number and the text before the separator |
| `TestData.ReadNumberPins` | src/support/TestData.ts:8 | text that reads as a number and a rest is exactly the number's decimal rendering, the separator and the rest: a leading zero is not read |
| `TestData.ReadNumberFromEndPins` | src/support/TestData.ts:17 | text that reads from the end as a head and a number is exactly the head, the separator and the number's decimal rendering |
| `TestData.DrawLengths` | src/support/TestData.ts:8 | a timestamp no later than the last ECMAScript time value renders in one to 16 digits, and a random suffix below 10000 renders in one to four |
| `TestData.GenerateRandomEmail` | src/support/TestData.ts:5-9 | the address is `test_<timestamp>_<random>@<domain>`, with `test.com` as the default domain; it starts with `test_`; it is 9 to 27 characters longer than the domain; timestamp, random suffix and domain all read back from it |
| `TestData.EmailRoundTrip` | src/support/TestData.ts:8 | parsing `test_<timestamp>_<random>@<domain>` gives back the timestamp, the random number and the domain, for every domain |
| `TestData.ParsedEmailIsGenerated` | src/support/TestData.ts:8 | the only address that parses to a timestamp, a random suffix and a domain is the one built from them, so the round trip in the generator fixes its output |
| `TestData.EmailInjective` | src/support/TestData.ts:5-9 | two generated addresses are equal only when their timestamps, random suffixes and domains are |
| `TestData.GenerateRandomUsername` | src/support/TestData.ts:14-18 | the name is `<prefix>_<timestamp>_<random>`, with `user` as the default prefix; it starts with the prefix and `_`; it is 4 to 22 characters longer than the prefix; prefix, timestamp and random suffix all read back from it |
| `TestData.UsernameRoundTrip` | src/support/TestData.ts:17 | parsing `<prefix>_<timestamp>_<random>` from the right gives back the prefix, the timestamp and the random number, for every prefix |
| `TestData.ParsedUsernameIsGenerated` | src/support/TestData.ts:17 | the only name that parses to a prefix, a timestamp and a random suffix is the one built from them, so the round trip in the generator fixes its output |
| `TestData.UsernameInjective` | src/support/TestData.ts:14-18 | two generated user names are equal only when their prefixes, timestamps and random suffixes are |
| `TestData.AlphabetShape` | src/support/TestData.ts:24-28 | the classes have 26, 26, 10 and 14 characters; their union is the 76-character alphabet, and a character is in it exactly when it is in one of the classes |
| `TestData.FillChars` | src/support/TestData.ts:36-38 | the padding has one character per draw, and the i-th one is the alphabet character at the i-th draw |
| `TestData.Unshuffled` | src/support/TestData.ts:30-38 | before the shuffle, the password has 4 + padding characters: an upper-case letter, a lower-case letter, a digit and a special character, then the padding; every character is in the alphabet |
| `TestData.Shuffle` | src/support/TestData.ts:40 | the split/sort/join keeps the length and the multiset of characters: it is a permutation |
| `TestData.FirstPick` | src/support/TestData.ts:40 | the first character of a permutation of `s` sits at some position of `s`, and the rest is a permutation of what is left of `s` |
| `TestData.ShuffleStep` | src/support/TestData.ts:40 | prepending a first pick to a valid order for the remaining characters gives a valid order that places that character first |
| `TestData.EveryPermutationIsAShuffle` | src/support/TestData.ts:40 | every arrangement with the same multiset of characters is produced by some order: the shuffle can produce any permutation |
| `TestData.PermutationKeepsClasses` | src/support/TestData.ts:40 | a permutation keeps each character class the string covers, and keeps the string inside an alphabet |
| `TestData.ShuffledPasswordIsGenerated` | src/support/TestData.ts:23-40 | the shuffled password has length `max(length, 4)`, contains each of the four classes and stays inside the 76-character alphabet |
| `TestData.ClassesDisjoint` | src/support/TestData.ts:24-27 | the upper-case, lower-case, digit and special classes share no character |
| `TestData.SplitPassword` | src/support/TestData.ts:30-38 | a string with the guaranteed length, classes and alphabet is, up to order, one character of each class followed by `max(length, 4) - 4` alphabet characters |
| `TestData.GeneratedPasswordIsReachable` | src/support/TestData.ts:23-40 | conversely, every string of length `max(length, 4)` over the alphabet that covers all four classes is the output for some draws and some shuffle order: the guarantee describes the outputs exactly |
| `TestData.GenerateRandomPassword` | src/support/TestData.ts:23-41 | the password is the shuffle of the four class characters followed by one padding character for each `i` from 4 below `length` (default 12); it has length `max(length, 4)`, covers all four classes, and uses only alphabet characters |
| `TestData.SauceDemoUser` | src/support/TestData.ts:46-81 | each of the standard, locked-out, problem and performance-glitch accounts has the password `secret_sauce` |
| `TestData.SauceDemoUsersDistinct` | src/support/TestData.ts:46-81 | different accounts have different user names |
| `TestData.InvalidCredentials` | src/support/TestData.ts:86-91 | `invalid_user`/`wrong_password` shares neither its user name nor its password with any account |
| `TestData.IdTextIsClean` | src/support/TestData.ts:96-105 | a string made only of lower-case letters, digits, `-`, `.`, `(` and `)` has no whitespace and no upper-case letter |
| `TestData.ProductNames` | src/support/TestData.ts:96-105 | six distinct product names |
| `TestData.ProductNamesAreIdText` | src/support/TestData.ts:96-105 | each product name is made only of lower-case letters, digits, `-`, `.`, `(` and `)`, so it is lower-case and free of whitespace |
| `InventoryPage.Matches` | src/pages/InventoryPage.ts:12-14 | the two attribute selectors the page uses: `[a="v"]` holds when the element has attribute `a` with value exactly `v`; `[a^="v"]` holds when it has attribute `a` beginning with `v`, and never for an empty `v` |
| `InventoryPage.FindAll` | src/pages/InventoryPage.ts:11-13 | `$$(selector)` finds exactly the matching elements of the page, and no more than the page holds |
| `InventoryPage.FirstMatch` | src/pages/InventoryPage.ts:58 | the position `$` resolves to is the first matching one; there is none only when nothing matches |
| `InventoryPage.Find` | src/pages/InventoryPage.ts:58 | `$(selector)` finds an element if and only if one matches, and what it finds is the matching element at the first matching position of the page |
| `InventoryPage.NthMatchPosition` | src/pages/InventoryPage.ts:49-52 | the `index`-th element of `$$(selector)` stands in the page with exactly `index` matching elements before it |
| `InventoryPage.FindAllAppend` | src/pages/InventoryPage.ts:11-13 | `$$` over two stretches of the page gives the matches of the first stretch, then those of the second, in document order |
| `InventoryPage.MatchIndex` | src/pages/InventoryPage.ts:49-52 | conversely, a matching element at position `k` is the element of `$$(selector)` whose index is the number of matches before `k` |
| `InventoryPage.AddAndRemoveButtonsDisjoint` | src/pages/InventoryPage.ts:12-13 | no element is both an add-to-cart button and a remove button |
| `InventoryPage.AddItemToCart` | src/pages/InventoryPage.ts:49-52 | for an index inside the collection (the only indices the page object admits), the clicked button is an add-to-cart button of the page with exactly `index` such buttons before it |
| `InventoryPage.RemoveItemFromCart` | src/pages/InventoryPage.ts:65-68 | for an index inside the collection, the clicked button is a remove button of the page with exactly `index` such buttons before it |
| `InventoryPage.Slug` | src/pages/InventoryPage.ts:58 | the slug has no whitespace and no upper-case letter, and is no longer than the name |
| `InventoryPage.SlugFixedPoint` | src/pages/InventoryPage.ts:58 | a name is its own slug if and only if it is lower-case and free of whitespace |
| `InventoryPage.SlugIdempotent` | src/pages/InventoryPage.ts:58 | taking the slug twice gives the same as taking it once |
| `InventoryPage.ProductNamesAreSlugs` | src/support/TestData.ts:96-105 | every fixture product name is its own slug and contains no `"`, `\` or NUL, so it can be passed to `addItemToCartByName` as it is |
| `InventoryPage.AddToCartSelector` | src/pages/InventoryPage.ts:58 | for a slug with no `"`, `\` or NUL, the locator text is `[data-test="add-to-cart-` + slug + `"]`, and it matches exactly the elements whose `data-test` is `add-to-cart-` + slug |
| `InventoryPage.AddToCartSelectorBySlug` | src/pages/InventoryPage.ts:58 | two names give the same locator if and only if they have the same slug |
| `InventoryPage.ByNameIsAddToCartButton` | src/pages/InventoryPage.ts:12 | an element matched by a name's locator also matches `[data-test^="add-to-cart"]` |
| `InventoryPage.ByNameIsIndexed` | src/pages/InventoryPage.ts:49-52 | a button whose `data-test` is `add-to-cart-` + slug, at position `k`, is the add-to-cart button `addItemToCart` clicks for the index equal to the number of add-to-cart buttons before `k` |
| `InventoryPage.AddItemToCartByName` | src/pages/InventoryPage.ts:57-60 | for a slug with no `"`, `\` or NUL, a button is found if and only if some element's `data-test` is `add-to-cart-` + slug; the found button is the first such element of the page, and `addItemToCart` clicks the same element for the index equal to the number of add-to-cart buttons before it |
| `InventoryPage.CartItemCount` | src/pages/InventoryPage.ts:37-44 | a failed badge read counts 0; text that was read is passed to `parseInt`, so a badge of decimal digits counts their value and text that does not start like a number counts NaN, not 0 |
| `InventoryPage.CartItemCountOfBadge` | src/pages/InventoryPage.ts:37-44 | a badge showing the decimal number n counts n |
| `InventoryPage.ParseSortOption` | src/pages/InventoryPage.ts:104 | a string that names a sort option is that option's `value` |
| `InventoryPage.SortOptionValues` | src/pages/InventoryPage.ts:104-106 | exactly `az`, `za`, `lohi` and `hilo` name options, and each option's value names that option |
| `InventoryPage.SortProducts` | src/pages/InventoryPage.ts:104-106 | selects on the equality selector `[data-test="product_sort_container"]`, which matches exactly the elements with that `data-test`, by the attribute `value`, with a value that names the chosen option |

## Left out

- `isInventoryPageDisplayed`, `getPageTitle`, `clickShoppingCart`, `openMenu` (with its 500 ms pause), `logout` and `getProductCount` only forward to the driver (clicks, visibility checks, text reads and pauses), so they are not modelled. The same holds for the clicks themselves: the model says which element is clicked, not what clicking does to the page.
- `src/pages/BasePage.ts`, `src/pages/LoginPage.ts`, `src/support/WebHelpers.ts`, `src/support/Logger.ts`, the `config/` files and the specs under `src/test/` are not part of this model. They either forward to WebdriverIO and winston or depend on the live application's behaviour.
- The screenshot file name built in the `afterTest` hook (`config/wdio.shared.conf.ts:65`) uses the same whitespace-run replacement with `_`. It is part of a filesystem hook and is not modelled.
- `JsText.LowerChar`: maps the 26 ASCII upper-case letters only; every other character, `À` for one, is kept as it is.
- `JsText.ToLower`: models ASCII case mapping only. The real `toLowerCase` also maps non-ASCII letters, and some of them to two characters. Every fixture product name, `sauce-labs-backpack` among them, is ASCII (`TestData.ProductNamesAreIdText`); a name from elsewhere need not be.
- `JsText.ParseInt`: a negative zero (`parseInt("-0")`) is folded into 0. The rounding of values above 2^53 to the nearest double is not modelled.
- `InventoryPage.CartItemCount`: the source catches every error of the badge read, not only a missing badge; the model cannot tell these apart and maps each one to a failed read.
- `TestData.GenerateRandomPassword`: `length` is an integer. The real parameter is a JavaScript number, and a fractional length would run the loop up to its ceiling.
- `TestData.Shuffle`: says which orders the random-comparator sort can produce (all permutations), not how likely each one is or how many random draws the sort makes. An inconsistent comparator leaves the order up to the engine.
- The fixture getters return a fresh object on every call; object identity is not modelled, only the values.
- `InventoryPage.Element`: an element is its attribute map only, so two DOM nodes with the same attributes are the same value (on the page `[e, e]`, `AddItemToCart(page, 0) == AddItemToCart(page, 1)`). Element identity is modelled by position alone: the positional ensures of `AddItemToCart`, `RemoveItemFromCart` and `AddItemToCartByName` say which node is clicked.
- `InventoryPage.AddItemToCartByName`: requires a slug with no `"`, no `\` and no NUL. The source puts the slug into the selector text without escaping it. A `"` can end the string and turn the text into a different selector or a selector list: for the name `x"],[data-test="remove-y`, `$` picks a remove button. A `\` starts a CSS escape, and CSS reads NUL as U+FFFD. CSS parsing and unescaping are not modelled, so neither are these names. Every fixture product name meets the requirement (`InventoryPage.ProductNamesAreSlugs`).
- `InventoryPage.AddToCartSelector`: the same requirement, for the same reason. For other slugs the rendered text is still the one the source builds, but it need not be the equality selector the model gives.
- `InventoryPage.Find`: WebdriverIO's `$` returns an element proxy even when nothing matches, and the failure surfaces when the click times out. The model returns `None` at once.
