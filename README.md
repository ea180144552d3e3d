# twartbot: the Scryfall card sanitiser

A Dafny model of the logic in `mtgtwartbot/scryfall.py` of twartbot, a bot
that picks a Magic: The Gathering card from Scryfall's bulk data and posts its
artwork and flavour text. The model covers:

- **Sanitiser** (`sanitiser.dfy`): `is_invalid` (joke-set and missing flavour
  text filter), `sanitise_card` (the trimmed record with defaults, em-dash and
  bullet normalisation and the legal-format list) and `sanitise_cards` (the
  loop keeping the non-`None` results in order).
- **BulkData** (`bulk_data.dfy`): the choice of the first `oracle_cards`
  descriptor in `fetch_download_url` and the empty-link check in
  `download_cards`.
- **Artwork** (`artwork.dfy`): the `art_crop` guard of `download_artwork`,
  which raises `NoArtwork` before any image request.
- **Text** and **Wrappers** (`text.dfy`, `wrappers.dfy`): Python's substring
  test and one-character `str.replace`, plus `Option` and `Result`.

A raw card is a `RawCard` value with one `Option` field per key the code
reads (`None` means the key is absent). `set_name` is read first by
`is_invalid`, so it is always required. The other keys the code indexes
without a membership test are required only for valid cards, because
`sanitise_card` returns `None` before it reads them (`Sanitisable`). The
parsed `legalities` dictionary is a sequence of pairs in its iteration
order, with no key twice (`DistinctKeys`), so `legal` keeps Python's
dictionary order. `sanitise_card` fills its `info`
dictionary one key at a time. `SanitiseCard` does the same with local
variables and is proved equal to the function `Sanitised`. `sanitise_cards`
is the `for` loop `SanitiseCards`, proved equal to `SanitisedAll`.

Behaviour of the code worth noting:

- A card with an empty `flavor_text` is kept. `is_invalid` only tests that the
  key is present (`mtgtwartbot/scryfall.py:138`).
- With no `oracle_cards` descriptor, the list in `fetch_download_url` is empty
  and `[0]` raises `IndexError` (`mtgtwartbot/scryfall.py:37-40`). The model
  makes this case a precondition.
- A null or empty link raises `ScryfallDownloadError("No download link
  available!")` (`mtgtwartbot/scryfall.py:54-55`). The class
  `NoScryfallDownloadLink` is declared but never raised.

## Model

| member | source | states |
|---|---|---|
| Text.ContainsIsSubstring | mtgtwartbot/scryfall.py:133-134 | the left-to-right search `Contains(s, t)` holds exactly when `t` occurs in `s` at some position (Python's `t in s`) |
| Text.ReplaceChar | mtgtwartbot/scryfall.py:107 | `replace` of one character keeps the length, changes every occurrence of `from` to `to`, leaves every other character alone and leaves no `from` behind |
| Sanitiser.IsInvalid | mtgtwartbot/scryfall.py:130-141 | a card is invalid exactly when its set name contains "Unglued", "Unhinged", "Unstable" or "Unsanctioned" (case-sensitive), or it has no `flavor_text` key |
| Sanitiser.NormaliseTypeLine | mtgtwartbot/scryfall.py:107 | the type line keeps its length, has no em-dash left, has a hyphen where an em-dash stood and every other character unchanged |
| Sanitiser.NormaliseOracleText | mtgtwartbot/scryfall.py:110 | the rules text keeps its length, has neither em-dash nor bullet left, has `-` for each em-dash and `*` for each bullet and every other character unchanged |
| Sanitiser.OracleTextExample | mtgtwartbot/scryfall.py:110 | "Draw a card—then discard.•" normalises to "Draw a card-then discard.*" |
| Sanitiser.LegalFormats | mtgtwartbot/scryfall.py:111 | a format is in `legal` exactly when some legality entry has that key and a value other than "not_legal"; `legal` is no longer than the legalities and lists no format twice |
| Sanitiser.LegalFormatsAppend | mtgtwartbot/scryfall.py:111 | the legal list of a concatenation is the concatenation of the legal lists, so formats keep the legalities dictionary's order |
| Sanitiser.LegalFormatsKeepsBanned | mtgtwartbot/scryfall.py:111 | standard=legal, historic=banned, pauper=not_legal gives ["standard", "historic"]: banned is kept |
| Sanitiser.Sanitised | mtgtwartbot/scryfall.py:98-118 | `None` exactly for invalid cards; otherwise the flavour and set name are the input's, and the set name is no joke set |
| Sanitiser.SanitisedFields | mtgtwartbot/scryfall.py:103-116 | for a valid card: the indexed keys are copied. A missing mana cost, image map, colours or rules text gives "", {}, [] or "", and a present one is copied. Type line and rules text are normalised character for character. `legal` is exactly the formats not "not_legal", each once |
| Sanitiser.SanitiseCard | mtgtwartbot/scryfall.py:98-118 | filling `info` key by key gives the same result as `Sanitised` |
| Sanitiser.SanitisedAll | mtgtwartbot/scryfall.py:79-85 | the output is no longer than the input and no output card's set name names a joke set |
| Sanitiser.KeptIndices | mtgtwartbot/scryfall.py:80-83 | the positions of the valid records, strictly increasing, containing every valid position and no invalid one |
| Sanitiser.SanitisedAllIsFilter | mtgtwartbot/scryfall.py:79-85 | the k-th output card is the sanitised form of the k-th valid record, and there are as many output cards as valid records |
| Sanitiser.SanitisedAllCount | mtgtwartbot/scryfall.py:79-85 | the number of output cards equals the number of input positions that are not invalid |
| Sanitiser.ValidPositionsStep | mtgtwartbot/scryfall.py:80-83 | appending a record adds one valid position exactly when that record is valid |
| Sanitiser.SanitisedAllFrom | mtgtwartbot/scryfall.py:80-83 | every output card is the sanitised form of some input record, whose position is returned |
| Sanitiser.SanitisedAllKeeps | mtgtwartbot/scryfall.py:80-83 | the sanitised form of every valid input record is in the output |
| Sanitiser.SanitisedAllMembers | mtgtwartbot/scryfall.py:79-85 | a card is in the output exactly when some input record sanitises to it |
| Sanitiser.SanitisedAllAppend | mtgtwartbot/scryfall.py:79-85 | sanitising a concatenation concatenates the outputs, so the relative input order is kept |
| Sanitiser.SanitiseCards | mtgtwartbot/scryfall.py:79-85 | the loop returns exactly `SanitisedAll(cards)` |
| BulkData.OracleDescriptors | mtgtwartbot/scryfall.py:37-39 | the comprehension's list is no longer than `data`, and a descriptor is in it exactly when it is in `data` with type `oracle_cards` |
| BulkData.OracleDescriptorsAppend | mtgtwartbot/scryfall.py:37-39 | the list for a concatenation is the concatenation of the lists, so descriptors keep the order of `data` |
| BulkData.OracleDescriptorsHead | mtgtwartbot/scryfall.py:37-40 | the list is non-empty exactly when `data` has an `oracle_cards` descriptor, and its element `[0]` is the first such descriptor |
| BulkData.FetchDownloadUrl | mtgtwartbot/scryfall.py:37-40 | the result is the `download_uri` of the first descriptor whose type is `oracle_cards` |
| BulkData.ResolveDownloadLink | mtgtwartbot/scryfall.py:52-55 | succeeds exactly when the first `oracle_cards` link is non-null and non-empty, and then returns that link; otherwise fails with `ScryfallDownloadError("No download link available!")` |
| Artwork.ArtworkRequest | mtgtwartbot/scryfall.py:156-159 | fails with `NoArtwork("No artwork for <name>")` exactly when `images` has no "art_crop" key, so no request is made; otherwise the one URL requested is `images["art_crop"]` |
| Artwork.NoImageUrisNoArtwork | mtgtwartbot/scryfall.py:156-157 | a valid record without `image_uris` sanitises to a card whose artwork download always raises `NoArtwork` |

## Left out

- HTTP requests and status checks (`fetch_download_url`, `download_cards`, `download_artwork`): network I/O. The parsed JSON is the model's input, and `ArtworkRequest` returns the URL that would be fetched.
- `download_cards` as a whole: it joins the two requests with `ResolveDownloadLink` and `SanitiseCards`, and the requests are I/O.
- Writing the artwork to `image.jpg`: filesystem I/O.
- The on-disk card cache, its 12-hour freshness check and `get_scryfall_cards`. No source for these is part of this model.
- The `print` progress messages: console output.
- `twartbot/twitter.py`: a wrapper over the Twitter client that reads credentials from the environment.
- `mtgtwartbot/run.py` and `mtgtwartbot/main.py`: entry scripts built on random shuffling and choice, including the unbounded caption re-selection loop.
- `setup.py`: packaging metadata.
- Dynamic typing of JSON values: each key has the type Scryfall gives it (strings, string lists, a string map for `image_uris`, a real for `cmc`). Values of another type, which would make `replace` or `in` fail or behave differently, are not modelled.
- Keys present with a JSON `null` value in the card record: the fields are `Option`s for presence only.
- The descriptor's `type` and `download_uri` keys are assumed present, since the comprehension indexes them. A missing `download_uri` would raise `KeyError`; the model only has `null` (`None`) for it.
- BulkData.FetchDownloadUrl: a missing `oracle_cards` descriptor makes `[0]` raise `IndexError`; the model requires one to exist instead of modelling the crash.
- `cmc` is a JSON float. It is only copied, so it is modelled as a `real` with no floating-point behaviour.
