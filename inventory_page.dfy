/**
 * The inventory page object of the suite: the locators it derives, the elements
 * they pick out, and the values it computes from what it reads.
 *
 * The browser is not modelled. What a locator resolves against is the rendered
 * page as a sequence of elements in document order, each with its attributes, and
 * `$`/`$$` become functions over that sequence; a read that can throw becomes an
 * `Option`. Clicking, waiting and navigating are the driver's and stay outside.
 */
module InventoryPage {
  import opened Wrappers
  import opened JsText
  import TestData

  // ---------------------------------------------------------------------------
  // Elements and attribute selectors
  // ---------------------------------------------------------------------------

  /** One element of the rendered page, as selectors see it. */
  datatype Element = Element(attributes: map<string, string>)

  /** The two CSS attribute selectors the page uses: `[a="v"]` and `[a^="v"]`. */
  datatype AttributeSelector =
    | AttributeEquals(attribute: string, value: string)
    | AttributePrefix(attribute: string, value: string)

  /** The selector as CSS text. */
  function Render(selector: AttributeSelector): string {
    match selector
    case AttributeEquals(a, v) => "[" + a + "=\"" + v + "\"]"
    case AttributePrefix(a, v) => "[" + a + "^=\"" + v + "\"]"
  }

  /** CSS semantics: `[a="v"]` needs the value to be `v`; `[a^="v"]` needs a non-empty `v` to begin it. */
  predicate Matches(selector: AttributeSelector, e: Element) {
    selector.attribute in e.attributes &&
    match selector
    case AttributeEquals(_, v) => e.attributes[selector.attribute] == v
    case AttributePrefix(_, v) => v != [] && v <= e.attributes[selector.attribute]
  }

  /** `$$(selector)`: every matching element, in document order. */
  function FindAll(selector: AttributeSelector, page: seq<Element>): (found: seq<Element>)
    ensures |found| <= |page|
    ensures forall e :: e in found <==> e in page && Matches(selector, e)
  {
    if page == [] then []
    else (if Matches(selector, page[0]) then [page[0]] else []) + FindAll(selector, page[1..])
  }

  /** Where the first matching element stands, if any. */
  function FirstMatch(selector: AttributeSelector, page: seq<Element>): (index: Option<nat>)
    ensures index.Some? ==> index.value < |page| && Matches(selector, page[index.value])
    ensures index.Some? ==> forall j :: 0 <= j < index.value ==> !Matches(selector, page[j])
    ensures index.None? ==> forall j :: 0 <= j < |page| ==> !Matches(selector, page[j])
  {
    if page == [] then None
    else if Matches(selector, page[0]) then Some(0)
    else match FirstMatch(selector, page[1..])
      case None => None
      case Some(i) => Some(i + 1)
  }

  /** `$(selector)`: the first matching element; None when there is none, and acting on it fails. */
  function Find(selector: AttributeSelector, page: seq<Element>): (found: Option<Element>)
    ensures found.Some? <==> exists e :: e in page && Matches(selector, e)
    ensures found.Some? ==> found.value in page && Matches(selector, found.value)
    ensures found.Some? ==>
      exists k :: 0 <= k < |page| && page[k] == found.value && Matches(selector, page[k])
                  && forall j :: 0 <= j < k ==> !Matches(selector, page[j])
  {
    match FirstMatch(selector, page)
    case None => None
    case Some(i) => Some(page[i])
  }

  /** `$$` over a page that starts with `x`: `x` if it matches, then the matches of the rest. */
  lemma FindAllCons(selector: AttributeSelector, x: Element, rest: seq<Element>)
    ensures FindAll(selector, [x] + rest) == (if Matches(selector, x) then [x] else []) + FindAll(selector, rest)
  {
    var page := [x] + rest;
    assert page[0] == x && page[1..] == rest;
  }

  /** The `index`-th match stands in the page with exactly `index` matches before it. */
  lemma {:induction false} NthMatchPosition(selector: AttributeSelector, page: seq<Element>, index: nat)
    returns (k: nat)
    requires index < |FindAll(selector, page)|
    ensures k < |page| && page[k] == FindAll(selector, page)[index]
    ensures |FindAll(selector, page[..k])| == index
  {
    var h := if Matches(selector, page[0]) then 1 else 0;
    if h == 1 && index == 0 {
      k := 0;
      assert page[..0] == [];
    } else {
      LaterMatch(selector, page, index);
      var k' := NthMatchPosition(selector, page[1..], index - h);
      k := k' + 1;
      LaterMatchPosition(selector, page, k');
    }
  }

  /** A match past the first element is a match of the rest of the page, shifted by the head. */
  lemma LaterMatch(selector: AttributeSelector, page: seq<Element>, index: nat)
    requires index < |FindAll(selector, page)|
    requires Matches(selector, page[0]) ==> index > 0
    ensures var h := if Matches(selector, page[0]) then 1 else 0;
      index - h < |FindAll(selector, page[1..])|
      && FindAll(selector, page)[index] == FindAll(selector, page[1..])[index - h]
  {
  }

  /** The matches before position `k' + 1` of the page: the head's, then those of the rest before `k'`. */
  lemma LaterMatchPosition(selector: AttributeSelector, page: seq<Element>, k': nat)
    requires k' < |page| - 1
    ensures page[k' + 1] == page[1..][k']
    ensures |FindAll(selector, page[..k' + 1])|
      == (if Matches(selector, page[0]) then 1 else 0) + |FindAll(selector, page[1..][..k'])|
  {
    assert page[..k' + 1] == [page[0]] + page[1..][..k'];
    FindAllCons(selector, page[0], page[1..][..k']);
  }

  /** `$$` over two stretches of the page finds the matches of the first, then those of the second. */
  lemma {:induction false} FindAllAppend(selector: AttributeSelector, a: seq<Element>, b: seq<Element>)
    ensures FindAll(selector, a + b) == FindAll(selector, a) + FindAll(selector, b)
    decreases |a|
  {
    if a == [] {
      assert a + b == b;
    } else {
      var x, rest := a[0], a[1..];
      var head := if Matches(selector, x) then [x] else [];
      assert a == [x] + rest;
      calc {
        FindAll(selector, a + b);
        { assert a + b == [x] + (rest + b); }
        FindAll(selector, [x] + (rest + b));
        { FindAllCons(selector, x, rest + b); }
        head + FindAll(selector, rest + b);
        { FindAllAppend(selector, rest, b); }
        head + (FindAll(selector, rest) + FindAll(selector, b));
        (head + FindAll(selector, rest)) + FindAll(selector, b);
        { FindAllCons(selector, x, rest); }
        FindAll(selector, a) + FindAll(selector, b);
      }
    }
  }

  /**
   * Conversely, a matching element at position `k` is the match numbered by how
   * many matches stand before it.
   */
  lemma MatchIndex(selector: AttributeSelector, page: seq<Element>, k: nat)
    requires k < |page| && Matches(selector, page[k])
    ensures |FindAll(selector, page[..k])| < |FindAll(selector, page)|
    ensures FindAll(selector, page)[|FindAll(selector, page[..k])|] == page[k]
  {
    var tail := [page[k]] + page[k + 1..];
    assert page == page[..k] + tail;
    FindAllAppend(selector, page[..k], tail);
    assert tail[0] == page[k] && tail[1..] == page[k + 1..];
    assert FindAll(selector, tail) == [page[k]] + FindAll(selector, page[k + 1..]);
  }

  // ---------------------------------------------------------------------------
  // The page's locators
  // ---------------------------------------------------------------------------

  const DataTest: string := "data-test"

  /** `addToCartButtons`: `[data-test^="add-to-cart"]`. */
  const AddToCartButtons: AttributeSelector := AttributePrefix(DataTest, "add-to-cart")

  /** `removeButtons`: `[data-test^="remove"]`. */
  const RemoveButtons: AttributeSelector := AttributePrefix(DataTest, "remove")

  /** `sortDropdown`: `[data-test="product_sort_container"]`. */
  const SortDropdown: AttributeSelector := AttributeEquals(DataTest, "product_sort_container")

  /** No element is both an add-to-cart button and a remove button. */
  lemma AddAndRemoveButtonsDisjoint(page: seq<Element>)
    ensures forall e :: e in FindAll(AddToCartButtons, page) ==> e !in FindAll(RemoveButtons, page)
  {
    forall e | e in FindAll(AddToCartButtons, page)
      ensures e !in FindAll(RemoveButtons, page)
    {
      var v := e.attributes[DataTest];
      assert v[0] == 'a';
    }
  }

  // ---------------------------------------------------------------------------
  // addItemToCart, removeItemFromCart
  // ---------------------------------------------------------------------------

  /**
   * `addItemToCart(index)`: the button clicked is the `index`-th add-to-cart button
   * in document order. An index outside the collection is not caught by the page
   * object, so callers must stay inside it.
   */
  function AddItemToCart(page: seq<Element>, index: int): (button: Element)
    requires 0 <= index < |FindAll(AddToCartButtons, page)|
    ensures button in page && Matches(AddToCartButtons, button)
    ensures exists k :: 0 <= k < |page| && page[k] == button && |FindAll(AddToCartButtons, page[..k])| == index
  {
    assert exists k :: 0 <= k < |page| && page[k] == FindAll(AddToCartButtons, page)[index]
                       && |FindAll(AddToCartButtons, page[..k])| == index
    by {
      var k := NthMatchPosition(AddToCartButtons, page, index);
    }
    FindAll(AddToCartButtons, page)[index]
  }

  /**
   * `removeItemFromCart(index)`: the button clicked is the `index`-th remove button
   * in document order; the index must lie inside the collection.
   */
  function RemoveItemFromCart(page: seq<Element>, index: int): (button: Element)
    requires 0 <= index < |FindAll(RemoveButtons, page)|
    ensures button in page && Matches(RemoveButtons, button)
    ensures exists k :: 0 <= k < |page| && page[k] == button && |FindAll(RemoveButtons, page[..k])| == index
  {
    assert exists k :: 0 <= k < |page| && page[k] == FindAll(RemoveButtons, page)[index]
                       && |FindAll(RemoveButtons, page[..k])| == index
    by {
      var k := NthMatchPosition(RemoveButtons, page, index);
    }
    FindAll(RemoveButtons, page)[index]
  }

  // ---------------------------------------------------------------------------
  // addItemToCartByName
  // ---------------------------------------------------------------------------

  /** `productName.toLowerCase().replace(/\s+/g, '-')`. */
  function Slug(productName: string): (slug: string)
    ensures NoWhitespace(slug) && NoUpperAscii(slug)
    ensures |slug| <= |productName|
  {
    var lower := ToLower(productName);
    var slug := ReplaceWhitespaceRuns(lower, '-');
    assert forall i :: 0 <= i < |slug| ==> !IsUpperAscii(slug[i]) by {
      forall i | 0 <= i < |slug| ensures !IsUpperAscii(slug[i]) {
        if slug[i] != '-' {
          var j :| 0 <= j < |lower| && lower[j] == slug[i];
        }
      }
    }
    slug
  }

  /** A name is its own slug exactly when it is already lower-case and has no whitespace. */
  lemma SlugFixedPoint(name: string)
    ensures Slug(name) == name <==> NoWhitespace(name) && NoUpperAscii(name)
  {
    if NoWhitespace(name) && NoUpperAscii(name) {
      ToLowerFixedPoint(name);
      ReplaceWhitespaceRunsFixedPoint(name, '-');
    }
  }

  /** Taking the slug twice changes nothing more. */
  lemma SlugIdempotent(name: string)
    ensures Slug(Slug(name)) == Slug(name)
  {
    SlugFixedPoint(Slug(name));
  }

  /**
   * Every fixture product name is its own slug and plain CSS string text, so it can
   * be passed to `addItemToCartByName` as it is.
   */
  lemma ProductNamesAreSlugs()
    ensures forall i :: 0 <= i < |TestData.ProductNames()| ==>
      Slug(TestData.ProductNames()[i]) == TestData.ProductNames()[i]
      && PlainCssString(TestData.ProductNames()[i])
  {
    var names := TestData.ProductNames();
    TestData.ProductNamesAreIdText();
    forall i | 0 <= i < |names| ensures Slug(names[i]) == names[i] && PlainCssString(names[i]) {
      SlugFixedPoint(names[i]);
    }
  }

  /** The element's `data-test` attribute is `value`. */
  predicate HasDataTest(e: Element, value: string) {
    DataTest in e.attributes && e.attributes[DataTest] == value
  }

  /**
   * Text that stands for itself inside a double-quoted CSS string: no `"`, which
   * ends the string, no `\`, which starts an escape, and no NUL, which CSS reads
   * as U+FFFD. (A line break cannot occur in a slug, which has no whitespace.)
   */
  predicate PlainCssString(s: string) {
    forall c :: c in s ==> c != '"' && c != '\\' && c != '\0'
  }

  /**
   * The locator built for a product name: `[data-test="add-to-cart-<slug>"]`. The
   * slug is put into the selector text unescaped, so the text is one equality
   * selector on that value only when the slug is plain CSS string text.
   */
  function AddToCartSelector(productName: string): (selector: AttributeSelector)
    requires PlainCssString(Slug(productName))
    ensures Render(selector) == "[data-test=\"add-to-cart-" + Slug(productName) + "\"]"
    ensures selector.AttributeEquals? && selector.attribute == DataTest
    ensures forall e :: Matches(selector, e) <==> HasDataTest(e, "add-to-cart-" + Slug(productName))
  {
    RenderAddToCart(Slug(productName));
    AttributeEquals(DataTest, "add-to-cart-" + Slug(productName))
  }

  lemma RenderAddToCart(slug: string)
    ensures Render(AttributeEquals(DataTest, "add-to-cart-" + slug))
      == "[data-test=\"add-to-cart-" + slug + "\"]"
  {
    var open, close := "[" + DataTest + "=\"", "\"]";
    assert open + "add-to-cart-" == "[data-test=\"add-to-cart-";
    assert open + ("add-to-cart-" + slug) == (open + "add-to-cart-") + slug;
  }

  /** Names with the same slug address the same button. */
  lemma AddToCartSelectorBySlug(a: string, b: string)
    requires PlainCssString(Slug(a)) && PlainCssString(Slug(b))
    ensures AddToCartSelector(a) == AddToCartSelector(b) <==> Slug(a) == Slug(b)
  {
    var prefix := "add-to-cart-";
    if AddToCartSelector(a) == AddToCartSelector(b) {
      assert (prefix + Slug(a))[|prefix|..] == Slug(a);
      assert (prefix + Slug(b))[|prefix|..] == Slug(b);
    }
  }

  /** A button found by name is one of the add-to-cart buttons the index form addresses. */
  lemma ByNameIsAddToCartButton(e: Element, productName: string)
    requires PlainCssString(Slug(productName))
    requires Matches(AddToCartSelector(productName), e)
    ensures Matches(AddToCartButtons, e)
  {
    var v := "add-to-cart-" + Slug(productName);
    assert v[..|"add-to-cart"|] == "add-to-cart";
  }

  /** A button found by name at position `k` is the add-to-cart button numbered by the ones before it. */
  lemma ByNameIsIndexed(page: seq<Element>, productName: string, k: nat)
    requires k < |page| && HasDataTest(page[k], "add-to-cart-" + Slug(productName))
    ensures |FindAll(AddToCartButtons, page[..k])| < |FindAll(AddToCartButtons, page)|
    ensures AddItemToCart(page, |FindAll(AddToCartButtons, page[..k])|) == page[k]
  {
    var v := "add-to-cart-" + Slug(productName);
    assert v[..|"add-to-cart"|] == "add-to-cart";
    assert Matches(AddToCartButtons, page[k]);
    MatchIndex(AddToCartButtons, page, k);
  }

  /**
   * `addItemToCartByName(productName)`: the button clicked is the first element whose
   * `data-test` is `add-to-cart-` followed by the slug of the name; when there is
   * none, the click fails (None). That button is also the add-to-cart button the
   * index form reaches with the number of add-to-cart buttons before it.
   */
  function AddItemToCartByName(page: seq<Element>, productName: string): (button: Option<Element>)
    requires PlainCssString(Slug(productName))
    ensures var value := "add-to-cart-" + Slug(productName);
      button.Some? <==> exists e :: e in page && HasDataTest(e, value)
    ensures var value := "add-to-cart-" + Slug(productName);
      button.Some? ==>
        exists k :: 0 <= k < |page| && page[k] == button.value && HasDataTest(page[k], value)
                    && (forall j :: 0 <= j < k ==> !HasDataTest(page[j], value))
                    && |FindAll(AddToCartButtons, page[..k])| < |FindAll(AddToCartButtons, page)|
                    && AddItemToCart(page, |FindAll(AddToCartButtons, page[..k])|) == page[k]
  {
    ByNameFindsFirst(page, productName);
    Find(AddToCartSelector(productName), page)
  }

  lemma ByNameFindsFirst(page: seq<Element>, productName: string)
    requires PlainCssString(Slug(productName))
    ensures var value, found := "add-to-cart-" + Slug(productName), Find(AddToCartSelector(productName), page);
      (found.Some? <==> exists e :: e in page && HasDataTest(e, value))
      && (found.Some? ==>
        exists k :: 0 <= k < |page| && page[k] == found.value && HasDataTest(page[k], value)
                    && (forall j :: 0 <= j < k ==> !HasDataTest(page[j], value))
                    && |FindAll(AddToCartButtons, page[..k])| < |FindAll(AddToCartButtons, page)|
                    && AddItemToCart(page, |FindAll(AddToCartButtons, page[..k])|) == page[k])
  {
    var value := "add-to-cart-" + Slug(productName);
    var selector := AddToCartSelector(productName);
    var found := Find(selector, page);
    if found.Some? {
      var k :| 0 <= k < |page| && page[k] == found.value && Matches(selector, page[k])
               && forall j :: 0 <= j < k ==> !Matches(selector, page[j]);
      forall j | 0 <= j < k ensures !HasDataTest(page[j], value) {
        assert !Matches(selector, page[j]);
      }
      ByNameIsIndexed(page, productName, k);
    }
  }

  // ---------------------------------------------------------------------------
  // getCartItemCount
  // ---------------------------------------------------------------------------

  /**
   * `getCartItemCount()`: `badgeText` is the text read from the cart badge, None when
   * the read throws (an empty cart renders no badge). A failed read counts as 0;
   * any text that was read goes through `parseInt`: a badge of decimal digits
   * counts their value, and text that does not start like a number is NaN, not 0.
   */
  function CartItemCount(badgeText: Option<string>): (count: JsNumber)
    ensures badgeText.None? ==> count == Int(0)
    ensures badgeText.Some? ==> count == ParseInt(badgeText.value)
    ensures badgeText.Some? && |badgeText.value| >= 1 && AllDigits(badgeText.value) ==>
      count == Int(DigitsValue(badgeText.value, 10))
    ensures badgeText.Some? && !StartsLikeNumber(badgeText.value) ==> count == NaN
  {
    match badgeText
    case None => Int(0)
    case Some(text) =>
      assert |text| >= 1 && AllDigits(text) ==> ParseInt(text) == Int(DigitsValue(text, 10)) by {
        if |text| >= 1 && AllDigits(text) {
          ParseIntOfDigits(text);
        }
      }
      assert !StartsLikeNumber(text) ==> ParseInt(text) == NaN by {
        if !StartsLikeNumber(text) {
          ParseIntNotANumber(text);
        }
      }
      ParseInt(text)
  }

  /** A badge showing the decimal number `n` counts `n` items. */
  lemma CartItemCountOfBadge(n: nat)
    ensures CartItemCount(Some(NatToString(n))) == Int(n)
  {
    ParseIntOfNatToString(n);
  }

  // ---------------------------------------------------------------------------
  // sortProducts
  // ---------------------------------------------------------------------------

  /** The options `sortProducts` accepts: by name A to Z or Z to A, by price low to high or high to low. */
  datatype SortOption = NameAToZ | NameZToA | PriceLowToHigh | PriceHighToLow

  /** The `value` attribute of the dropdown option. */
  function SortValue(option: SortOption): string {
    match option
    case NameAToZ => "az"
    case NameZToA => "za"
    case PriceLowToHigh => "lohi"
    case PriceHighToLow => "hilo"
  }

  /** The option a string names, if it names one. */
  function ParseSortOption(value: string): (option: Option<SortOption>)
    ensures option.Some? ==> SortValue(option.value) == value
  {
    if value == "az" then Some(NameAToZ)
    else if value == "za" then Some(NameZToA)
    else if value == "lohi" then Some(PriceLowToHigh)
    else if value == "hilo" then Some(PriceHighToLow)
    else None
  }

  /** Exactly the four strings `az`, `za`, `lohi` and `hilo` are options, each naming one option. */
  lemma SortOptionValues(value: string)
    ensures ParseSortOption(value).Some? <==> value in {"az", "za", "lohi", "hilo"}
    ensures forall o :: ParseSortOption(SortValue(o)) == Some(o)
  {
  }

  /** `selectByAttribute(attribute, value)` on the element a locator picks. */
  datatype Selection = SelectByAttribute(dropdown: AttributeSelector, attribute: string, value: string)

  /**
   * `sortProducts(option)`: selects, on the sort dropdown `[data-test="product_sort_container"]`,
   * the entry whose `value` is the option's.
   */
  function SortProducts(option: SortOption): (selection: Selection)
    ensures selection.dropdown == AttributeEquals("data-test", "product_sort_container")
    ensures forall e :: Matches(selection.dropdown, e) <==> HasDataTest(e, "product_sort_container")
    ensures selection.attribute == "value" && ParseSortOption(selection.value) == Some(option)
  {
    SortOptionValues(SortValue(option));
    SelectByAttribute(SortDropdown, "value", SortValue(option))
  }
}
