# eBay sold-listings scraper: the text-handling core

This project models the logic of `EbayElectronicsScraper` in `ebay_scraper.py` that does not
need the browser:

- the table of filter dimensions per device type (`get_device_filters`);
- the search URL for sold, completed Buy-It-Now listings (`build_search_url`);
- the price read from a price text (`extract_price`);
- the storage, color and condition read from a listing title (`extract_attributes`);
- the per-item loop of `scrape_sold_items`, which turns the parsed result items into records.
  It skips items with a missing element, skips the "Shop on eBay" placeholder and keeps items
  with a non-empty title and a non-zero price. When `float()` raises, the whole scrape ends
  in the exception handler and returns an empty table.

Modules:

- `Text`: the Python string operations used. It covers `str.lower`, `str.strip` (with
  Python's whitespace set), `" ".join`, one-character `str.replace`, and the case folding of
  `re.IGNORECASE` when the pattern is ASCII.
- `Patterns`: the four regular expressions, written by hand. They are modelled three ways:
  - a reference language `Matches`;
  - a greedy scanner `MatchAt` that tries the pattern at one position;
  - `Search`, which plays the role of `re.search`.
  `SearchSpec` proves that `Search` returns the leftmost match. For the price and storage
  patterns it also returns the longest match at that position. For an alternation,
  `MatchAtSound` and `Attributes.WordFound` prove that it returns the first alternative, in
  pattern order, that occurs there.
- `DeviceFilters`, `SearchUrl`, `Price`, `Attributes`, `Scrape`: one per operation.

The result items of the page are modelled as `RawItem(title, price)`. Each is the text of the
title element and the text of the price element, and `None` stands for a missing element. A
record is `Listing(name, price, attributes)`. In `Attributes`, a key missing from the
dictionary is `None`. A price is an exact `Decimal(units, scale)`, meaning
`units / 10^scale`.

`float()` raises when the comma-stripped match is empty or is a lone `"."`. So the error case
is any first match that holds no digit. That covers commas alone (`","`), and also commas
followed by a dot (`",."`), because `[\d,]+\.?\d*` accepts both.

## Model

| member | source | states |
|---|---|---|
| `DeviceFilters.GetDeviceFilters` | ebay_scraper.py:40-49 | The list is the table entry for the lower-cased type, or `['condition']` for any other type. It is non-empty, ends with `'condition'`, holds only known dimensions, and has no repeats. |
| `DeviceFilters.IgnoresCase` | ebay_scraper.py:49 | A device type and its lower-case form get the same dimensions. |
| `DeviceFilters.FallbackExactlyForUnknown` | ebay_scraper.py:42-49 | The result is `['condition']` if and only if the lower-cased type is not in the table. |
| `DeviceFilters.Examples` | ebay_scraper.py:43-49 | `"Phone"` and `"LAPTOP"` find their table rows, and `"drone"` falls back. |
| `Text.Strip` | ebay_scraper.py:164 | The stripped text is the input with its leading and trailing whitespace removed: a slice of the input preceded and followed only by whitespace, with no whitespace at either of its own ends. It is empty exactly when the input is all whitespace. |
| `Text.StripIdempotent` | ebay_scraper.py:164 | Stripping a stripped title changes nothing. |
| `Text.ReplaceJoin` | ebay_scraper.py:75 | Replacing in a joined text is the same as replacing in each term, and in the separator. |
| `SearchUrl.BuildSearchUrl` | ebay_scraper.py:64-85 | The loop collects the device type and then the non-empty filter values. The URL is the base URL, `/sch/i.html?_nkw=`, the `+`-joined query, and the four fixed parameters in their order. This holds for every input, including no filters. |
| `SearchUrl.FilterTermsAreValues` | ebay_scraper.py:70-72 | Every filter term is non-empty and is the value of one of the filters. |
| `SearchUrl.ValuesAreFilterTerms` | ebay_scraper.py:70-72 | Conversely, every non-empty filter value is a filter term. |
| `SearchUrl.FilterTermsAppend` | ebay_scraper.py:70-72 | Terms follow the order of the filters. The terms of concatenated filters are the concatenated terms. |
| `SearchUrl.EmptyValueIgnored` | ebay_scraper.py:71-72 | A filter with an empty value does not change the query. |
| `SearchUrl.QueryHasNoSpace` | ebay_scraper.py:75 | The query contains no space. |
| `SearchUrl.QueryIsPlusJoin` | ebay_scraper.py:67-75 | The query is the device type and the filter terms, each with its spaces turned into `+`, joined by `+`. |
| `SearchUrl.NoFilterTerms` | ebay_scraper.py:67-75 | With no non-empty filter value, the query is the device type with `+` for its spaces. |
| `SearchUrl.Example` | ebay_scraper.py:67-75 | `phone` with storage `128GB`, color `Rose Gold` and an empty condition gives `phone+128GB+Rose+Gold`. |
| `Patterns.MatchAtSound` | ebay_scraper.py:91-116 | A scanner result at a position is an accepted match. The price group starts after an optional `$`. An alternation returns the first alternative, in pattern order, that occurs there. |
| `Patterns.MatchAtComplete` | ebay_scraper.py:101-103 | Every match at a position is found there. No price match is longer than the one returned, and a storage match is unique. |
| `Patterns.SearchSpec` | ebay_scraper.py:91-116 | `Search` finds nothing exactly when no substring matches. Otherwise its match is accepted, nothing matches further left, and (outside alternations) nothing longer matches at the same start. |
| `Price.ExtractPrice` | ebay_scraper.py:87-94 | Absent text gives no price. |
| `Price.NoPriceExactly` | ebay_scraper.py:89-94 | No price comes back exactly when the text holds no digit and no comma. The empty text is one such case. |
| `Price.ExtractPriceReadsFirstMatch` | ebay_scraper.py:91-93 | The result is the converted, comma-stripped group of the leftmost match, taken longest. The group skips a leading `$`. |
| `Price.ConversionErrorExactly` | ebay_scraper.py:91-93 | `float()` raises exactly when the first match holds no digit. |
| `Price.AmountPositiveExactly` | ebay_scraper.py:92-93 | A parsed amount is non-zero exactly when the matched group has a digit other than `0`. |
| `Price.ToFloatParts` | ebay_scraper.py:93 | `float()` of digits, optionally followed by a dot and digits, is their value scaled by the number of fraction digits. It raises when there is no digit. |
| `Price.ExampleDollars` | ebay_scraper.py:87-93 | `"$1,234.56"` gives 1234.56. |
| `Price.ExampleNoPrice` | ebay_scraper.py:91-94 | `"No price"` gives no price. |
| `Price.ExampleLoneComma` | ebay_scraper.py:91-93 | `","` makes `float()` raise. |
| `Attributes.ExtractAttributes` | ebay_scraper.py:96-120 | The method fills the three dimensions one at a time. Storage gets the whole first storage match, and color and condition get the group of their first match. A dimension without a match stays absent. |
| `Attributes.ValuesAreSubstrings` | ebay_scraper.py:106-118 | Every value found is a substring of the title. |
| `Attributes.StorageFound` | ebay_scraper.py:101-108 | Storage is absent exactly when no substring matches the storage pattern. Otherwise it is the leftmost match. |
| `Attributes.StorageShape` | ebay_scraper.py:101-108 | A storage value is digits, optional whitespace, then GB or TB in any case. |
| `Attributes.WordAbsent` | ebay_scraper.py:102-118 | A word pattern finds nothing exactly when none of its words occurs anywhere, ignoring case. |
| `Attributes.WordFound` | ebay_scraper.py:102-118 | A found word sits at the leftmost position where some word of the pattern occurs. It equals, ignoring case, the first word in pattern order that occurs there. |
| `Attributes.ColorAndConditionFound` | ebay_scraper.py:102-118 | Color and condition values are vocabulary words, ignoring case. Each is absent exactly when no vocabulary word occurs. |
| `Attributes.ExampleColorStorage` | ebay_scraper.py:101-118 | `"Gold 64GB"` gives storage `64GB`, color `Gold` and no condition. |
| `Attributes.ExampleRoseGold` | ebay_scraper.py:102-113 | `"Rose Gold"` gives color `Rose Gold`. |
| `Attributes.ExampleRenewed` | ebay_scraper.py:103-118 | `"Renewed"` gives condition `new`. There are no word boundaries, and the text keeps its own case. |
| `Attributes.ExampleNoStorage` | ebay_scraper.py:101-108 | `"13 Pro"` has no storage. |
| `Scrape.ScrapeSoldItems` | ebay_scraper.py:153-183 | The method skips, stops or appends item by item, exactly as the loop of steps does. A step that raises makes the result the empty table. |
| `Scrape.FailureIsFinal` | ebay_scraper.py:168-183 | Once an item raises, the remaining items cannot rescue the scrape. |
| `Scrape.ProcessExactly` | ebay_scraper.py:153-183 | The loop fails exactly when some item raises. Otherwise it yields the kept records. |
| `Scrape.KeptAppend` | ebay_scraper.py:153-176 | Records keep the page order. |
| `Scrape.KeptFromSteps` | ebay_scraper.py:170-176 | There are no more records than items. Every record comes from a kept item, and every kept item gives a record. |
| `Scrape.KeepExactly` | ebay_scraper.py:158-176 | An item is kept exactly when both elements are present, the stripped title is non-empty and is not the placeholder in any case, and the stripped price text parses to a non-zero amount. Its record then has that name, that amount and the attributes of the name. |
| `Scrape.PlaceholderSkipped` | ebay_scraper.py:164-166 | A title that is `shop on ebay` in any case is skipped before its price is read. |
| `Scrape.MissingSkipped` | ebay_scraper.py:158-162 | An item without a title element or without a price element is skipped. |
| `Scrape.RaiseExactly` | ebay_scraper.py:161-168 | An item raises exactly when both elements are present, the title is not the placeholder, and the first match in its stripped price text holds no digit. |
| `Scrape.RecordsValid` | ebay_scraper.py:164-176 | Every record has a non-empty, stripped name that is not the placeholder, a non-zero price, and the attributes of its name. It comes from an item whose stripped title is the name and whose stripped price text parses to the price. |
| `Scrape.ScrapedExactly` | ebay_scraper.py:153-183 | The table is empty when any item raises. Otherwise it is the kept records, one for every kept item. |
| `Scrape.ExamplePage` | ebay_scraper.py:153-176 | On a page of a placeholder, one listing and an item without a title, exactly the listing is kept. The placeholder is skipped although its price text would raise. |
| `Scrape.ExampleRaise` | ebay_scraper.py:168-183 | A lone comma as a price text empties a table that would otherwise hold a record. |

## Left out

- Browser automation (`setup_driver`, `driver.get`, `WebDriverWait`, `execute_script`, `time.sleep`, `close`): external processes and timing. The scraper object's only other state is the constant base URL, so the model has no class.
- BeautifulSoup parsing, including `find_all`, `find` and the three-selector fallback chain. A page is given as a sequence of `RawItem`s, the texts of the elements found.
- The `item is None` check: `find_all` never yields `None`.
- `prompt_for_filters`, `main`, all `print` output, and writing CSV files (`csv_utils.py` is not part of this model): interactive I/O and file I/O.
- pandas: the result is a sequence of records instead of a DataFrame.
- Exceptions other than the `float()` error: they come from the browser and the parser, which are not modelled.
- Price.ExtractPrice: the amount is exact, and `float()` rounding to a double is not modelled. Rounding changes behaviour only through underflow: a price text such as `0.` followed by 330 zeros and a `1` becomes `0.0` in Python, so the source skips the item, while the model keeps it with its tiny non-zero amount. Overflow to infinity stays truthy and changes nothing.
- Patterns.MatchAt: `\d` matches only ASCII digits here. Python also matches other Unicode decimal digits.
- Text.Lower: only A-Z and the Kelvin sign are lowered. Other Unicode letters are left as they are, which does not change a comparison with the ASCII placeholder text.
- Text.Fold: `re.IGNORECASE` is modelled by the equivalences that can match an ASCII pattern letter: A-Z, the Kelvin sign, dotted and dotless i, and long s.
- The filter mapping is a sequence of (filter type, value) pairs in insertion order. Values are strings, and a value is truthy when it is non-empty.
