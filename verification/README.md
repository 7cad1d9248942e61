# fw.tonywu.dev text engine, bot filter and build helpers, modelled in Dafny

This project models the parts of the forwarding site that do real
computation:

- **The canvas text engine** that paints the forwarded URL.
  - `placeLetters` in `app/components/Forwarded/index.tsx` lays out a
    paragraph of styled segments with a fixed leading.
  - `placeLetters` in `app/components/Checkpoint.tsx` lays out a single
    string, with a line advance taken from the measured em box.
  - Both first cut the text into *phrases*: a word plus the break
    characters that trail it. They then place every code point with a
    greedy line-breaking fold. A phrase that overflows the line but fits
    on a fresh one moves to a new line as a whole.
  - `drawText` measures the letters and replays them onto the canvas
    between `save` and `restore`.
- **The User-Agent filter** (`detectUserAgent` in
  `app/components/Forwarded/.server.ts`).
  - It finds the `product/version` tokens of the header and blocks a
    request whose product, lower-cased, is on the `blockProducts` list.
    It also blocks a blank header.
  - A blocked request carries a four-part explanation that emphasises
    what matched.
- **`acceptLanguage`** (`app/i18n.ts`). It turns an `Accept-Language`
  header into language tags ordered by quality value, highest first. The
  order among equal qualities is kept.
- **`encodeHex`** (`app/css/fetch.js` and `util/fonts.js`). It writes
  bytes as lower-case hexadecimal, two digits per byte.
- **`loadChars`** (`app/css/fetch.js`). It collects the characters of
  every translated message, English first, each once, for font
  subsetting.

Modules and files:

| module | file | what |
|---|---|---|
| `Common` | `common.dfy` | `Option`, `Result` (a thrown error becomes `Err(message)`), `Concat`, `Last` |
| `JsString` | `jsstring.dfy` | `trim` and its white-space set, `split` with a string separator, and `toLowerCase` as far as it affects ASCII comparisons |
| `Phrases` | `phrases.dfy` | the `shouldBreak` scanner, per-segment phrase groups, and the shape of phrases |
| `Layout` | `layout.dfy` | the placement fold, with text measurement as a parameter and the two line-advance rules |
| `Render` | `render.dfy` | a small canvas (pen, `save`/`restore` stack, painted glyphs) and the two replay loops |
| `Forwarded` | `forwarded.dfy` | the multi-style engine: `placeLetters`, `measure`, `draw`; and `unwrap` |
| `Checkpoint` | `checkpoint.dfy` | the single-string engine: `placeLetters`, `height`, `draw`, and the text box settings |
| `UserAgent` | `useragent.dfy` | `detectUserAgent`, `explain`, `blockProducts` |
| `AcceptLanguage` | `acceptlanguage.dfy` | `acceptLanguage` |
| `Hex` | `hex.dfy` | `encodeHex`, with a decoder to state the round trip |
| `CharSet` | `charset.dfy` | `loadChars`, with a first-occurrence reference definition |

Parameters stand in for what the model cannot see:

- `Layout.Measurer` is `ctx.measureText`: a font and a text give a width,
  a bounding-box descent and the em-box ascent and descent.
- `AcceptLanguage.Parser` is `Number(...)`, with `None` for `NaN`.
- `Forwarded.Draw` takes the `setup` callback as a function from the
  height to a canvas.
- The checkpoint's canvas width is the `boxWidth` of `Checkpoint.Context`.
- Catalogs are sequences of messages, in `Object.values` order.

Strings are sequences of code points, as `[...text]` iterates them.

## Model

| member | source | states |
|---|---|---|
| Phrases.ScanText | app/components/Forwarded/index.tsx:334-347 | the character loop of the splitter loses and repeats no character: the pushed phrases followed by the open one spell the old open phrase plus the text |
| Phrases.Groups | app/components/Forwarded/index.tsx:327-351 | one group of phrases per segment; each group is non-empty because a segment end always pushes, carries its segment's font and fill, and spells exactly its segment's text |
| Phrases.Split | app/components/Forwarded/index.tsx:327-351 | the phrase texts, read in order, spell the paragraph's text |
| Phrases.ScanShape | app/components/Checkpoint.tsx:142-161 | from any ready state, every phrase has break characters only at its end; consecutive phrases meet exactly where a run of break characters ends; the first phrase extends the open one and is empty exactly when nothing was open and the text is empty or starts with a non-break while the flag is set; the flag left over is whether the last character was a break |
| Phrases.ScanFlag | app/components/Forwarded/index.tsx:335-346 | the `shouldBreak` flag after a text is whether its last character is a break, or the flag it entered with when the text is empty |
| Phrases.GroupAt | app/components/Forwarded/index.tsx:329-350 | segment `i` is split with the flag carried over from the text before it, since `shouldBreak` is not reset between segments |
| Phrases.PhraseShape | app/components/Forwarded/index.tsx:327-351 | every phrase of every segment has break characters only at its end, and the phrases of a segment meet where a run of break characters ends |
| Phrases.EmptyPhrases | app/components/Forwarded/index.tsx:335-349 | a phrase is empty exactly when it is the first of its segment and the segment is empty, or the text before the segment ends in a break and the segment starts with a non-break |
| Layout.Lookahead | app/components/Forwarded/index.tsx:363-382 | a phrase moves to a new line exactly when it overflows the rest of the line and fits on an empty one; the new line starts at the origin's left, one line advance (the leading, or the measured em height) below, with the phrase's descent; otherwise the cursor is unchanged |
| Layout.PlaceChars | app/components/Forwarded/index.tsx:384-398 | one letter per code point of the phrase, in order, in the phrase's font and fill |
| Layout.PlaceCharsSteps | app/components/Forwarded/index.tsx:363-398 | within a phrase each letter lands from the cursor after the previous letter: it wraps exactly when `left + width > lineWidth` (to the origin's left, one line advance down, with its own descent), and otherwise keeps the cursor and raises the running descent; the final cursor follows the last letter |
| Layout.PlacePhrases | app/components/Forwarded/index.tsx:373-399 | the letters are the phrases' code points in order, each in its phrase's font and fill |
| Layout.SplitTagged | app/components/Forwarded/index.tsx:327-351 | cutting a paragraph into phrases keeps the same code points, in order, each in the style of the segment it came from |
| Layout.LettersFit | app/components/Forwarded/index.tsx:384-398 | every letter fits within the line width or sits at the origin's left; its bottom is at least its own descent below its top; its line advance is its own measurement's |
| Layout.PlacePhrasesSteps | app/components/Forwarded/index.tsx:357-402 | when line advances are non-negative, each letter continues the line of the letter before it or starts a new line no higher |
| Layout.TopsNonDecreasing | app/components/Forwarded/index.tsx:363-398 | when line advances are non-negative, `top` never decreases along the letters |
| Layout.PhraseKeptWhole | app/components/Forwarded/index.tsx:376-398 | when the letter spacing is not positive, the origin is at or left of 0, no code point's width is negative and the phrase's width is the sum of its code points' widths, a phrase that fits within the line width is never broken: all its letters share one `top` |
| Render.ReplayFrame | app/components/Forwarded/index.tsx:288-295 | `save`, baseline `top`, the body, then `restore` runs the body on a canvas with baseline `top` and one more saved pen, and restores the pen afterwards |
| Render.StyledReplayPaints | app/components/Forwarded/index.tsx:288-295 | the multi-style replay paints every letter in order at its `(left, top)` with its own font and fill and baseline `top`, and leaves the pen and saved stack unchanged |
| Render.PlainReplayPaints | app/components/Checkpoint.tsx:118-125 | the single-style replay paints every letter in order at its `(left, top)` with the current font and fill and baseline `top`, and leaves the pen and saved stack unchanged |
| Forwarded.PlaceLetters | app/components/Forwarded/index.tsx:321-405 | the letters are the paragraph's code points in order, each in its segment's font and fill; each fits on its line or starts it and lies at least its descent above its bottom, and the line advance is the leading |
| Forwarded.MeasureText | app/components/Forwarded/index.tsx:275-283 | `measure()` fails exactly when the paragraph has no code point, with the error `slice(-1)[0].bottom` raises; otherwise the letters are those `placeLetters` places (so its fit and grounding guarantees carry over), they spell the paragraph's glyphs, and the height is the last letter's bottom |
| Forwarded.Draw | app/components/Forwarded/index.tsx:285-296 | `draw` fails exactly when `measure` does; otherwise it paints the measured letters in their own styles onto the canvas `setup` returned, and leaves its pen and saved stack as `setup` left them |
| Forwarded.DrawPaintsParagraph | app/components/Forwarded/index.tsx:285-296 | the `i`-th glyph a successful draw paints is the paragraph's `i`-th code point, in its segment's font and fill, at the `i`-th letter's position |
| Forwarded.Unwrap | app/components/Forwarded/index.tsx:444-452 | only the first entry matters: its value when present; an error naming its key when it is null or undefined; the "unreachable" error for an empty object |
| Forwarded.UnwrapFirst | app/components/Forwarded/index.tsx:444-452 | entries after the first never change the outcome |
| Checkpoint.SplitText | app/components/Checkpoint.tsx:142-161 | at least one phrase; the phrases spell the text; the first is empty only for empty text; break characters only trail; phrases meet where a run of break characters ends |
| Checkpoint.OneSegment | app/components/Checkpoint.tsx:142-161 | the single-string splitter is the paragraph splitter applied to one segment in the context's style |
| Checkpoint.PlaceLetters | app/components/Checkpoint.tsx:139-213 | one letter per code point of the text, in order, in the context's font and fill |
| Checkpoint.LettersFitBox | app/components/Checkpoint.tsx:172-209 | every letter fits within the box width or sits at the origin's left; its bottom lies at least its descent below its top; its `em` is `(emHeightDescent - emHeightAscent) * lineHeight` of its own measurement |
| Checkpoint.Height | app/components/Checkpoint.tsx:115-117 | `height()` fails exactly for empty text and otherwise is the last letter's bottom |
| Checkpoint.Draw | app/components/Checkpoint.tsx:118-125 | `draw()` paints the letters in order in the canvas's current font and fill with baseline `top`, and leaves the pen and saved stack as they were |
| Checkpoint.TextboxPaintsText | app/components/Checkpoint.tsx:76-102 | the text box paints exactly the text's code points, in order, at their placed positions, in `24px monospace` and `rebeccapurple` |
| UserAgent.Explain | app/components/Forwarded/.server.ts:54-61 | four parts: the strong label, then three parts that always rebuild the header; when the span lies inside the header, the strong part is exactly that span |
| UserAgent.ProductOf | app/components/Forwarded/.server.ts:63-64 | the product group of a run of non-space characters is its longest prefix followed by `/` and at least one more character, and it is absent when no prefix works |
| UserAgent.TokensFrom | app/components/Forwarded/.server.ts:63 | the matches start runs of non-space characters, their products are those runs' product groups and the header's text at their index, and their indices increase |
| UserAgent.TokensAreMatches | app/components/Forwarded/.server.ts:63 | the run-by-run scan yields exactly the matches of a search that tries a match at every position and resumes after each match; a start inside a run without a product group finds none, since a decomposition of a suffix would extend to the whole run |
| UserAgent.LoweredEntries | app/components/Forwarded/.server.ts:77-94 | the blocklist's entries are the listed products lower-cased, position by position |
| UserAgent.BlockedUpToCase | app/components/Forwarded/.server.ts:65-94 | a product is blocked exactly when it equals one of the listed products up to case |
| UserAgent.FirstBlocked | app/components/Forwarded/.server.ts:63-68 | the loop returns at the first token whose product is blocked, and no earlier token is blocked |
| UserAgent.Decide | app/components/Forwarded/.server.ts:53-75 | blocked exactly when some token's product is blocked or the header is blank; the explanation emphasises the first blocked product at its index, or the whole header when it is blank |
| UserAgent.Detect | app/components/Forwarded/.server.ts:53-75 | `detectUserAgent` blocks exactly when some token of the header has a blocked product or the header is blank, and the explanation rebuilds the header |
| UserAgent.BlockedEmphasis | app/components/Forwarded/.server.ts:63-71 | a blocked request emphasises the first blocked product, which is the product group of the run it starts; with no blocked product the header is blank and the whole header is emphasised |
| UserAgent.CaseInsensitive | app/components/Forwarded/.server.ts:65-93 | two headers that agree up to case are both blocked or both allowed |
| AcceptLanguage.Items | app/i18n.ts:20-23 | the items are the trimmed comma-separated parts that are not blank, one per such part and in header order (an increasing map from items to parts that misses no non-blank part); each is non-empty, has no white space at either end and no comma |
| AcceptLanguage.ItemsComplete | app/i18n.ts:20-23 | every comma-separated part that is not blank appears, trimmed, among the items |
| AcceptLanguage.TagText | app/i18n.ts:24 | the tag is the text before the first `;q=`, or the whole item when there is none |
| AcceptLanguage.QText | app/i18n.ts:24 | the quality text is `"1"` without `;q=`, and otherwise the text after the first `;q=` up to the next one or the end |
| AcceptLanguage.ParseItem | app/i18n.ts:24-29 | an item yields a locale exactly when its quality text parses, with the item's tag and that quality |
| AcceptLanguage.Kept | app/i18n.ts:19-30 | the kept locales are the parsed items, one per item whose quality parses and in item order (an increasing map from locales to items that misses no parsing item); every kept locale comes from an item, and every item that parses is kept |
| AcceptLanguage.InsertSorted | app/i18n.ts:31 | inserting into a list ordered by descending quality keeps it ordered |
| AcceptLanguage.InsertPerm | app/i18n.ts:31 | inserting adds exactly the new locale and loses nothing |
| AcceptLanguage.InsertStable | app/i18n.ts:31 | the inserted locale goes after every locale of the same quality |
| AcceptLanguage.SortByQ | app/i18n.ts:31 | the sorted locales are in descending order of quality and are a permutation of the input |
| AcceptLanguage.SortStable | app/i18n.ts:31 | the sort is stable: the locales of any one quality keep their header order |
| AcceptLanguage.Parse | app/i18n.ts:18-33 | `acceptLanguage` returns one tag per kept locale, read off an ordering of the kept locales that is descending by quality, a permutation, and in header order among equal qualities |
| AcceptLanguage.ParseSpec | app/i18n.ts:18-33 | the result is the tags of the kept locales, sorted by descending quality, a permutation of the kept locales, with equal qualities in header order |
| JsString.TrimStart | app/i18n.ts:22 | drops exactly the leading white space: the result is a suffix, what was dropped is white space, and the result does not start with white space |
| JsString.Trim | app/i18n.ts:22 | the result is a slice of the input with only white space around it, it neither starts nor ends with white space, and it is empty exactly when the input is blank |
| JsString.Split | app/i18n.ts:21 | at least one part; joining the parts with the separator gives the input back; no part contains the separator |
| JsString.Lower | app/components/Forwarded/.server.ts:65 | `toLowerCase` keeps the length, lowers code point by code point, and leaves no ASCII capital |
| JsString.LowerIdempotent | app/components/Forwarded/.server.ts:93 | lower-casing an already lower-cased string changes nothing |
| Hex.ToHex | app/css/fetch.js:185 | `n.toString(16)`: at least one lower-case digit, no leading zero unless `n` is 0, and the digits stand for `n` |
| Hex.PadStart | app/css/fetch.js:185 | `padStart`: the input is kept at the end, and the string is filled in front up to the length |
| Hex.ByteHex | app/css/fetch.js:185 | one byte gives exactly two digits: the high nibble, then the low one |
| Hex.EncodeHex | app/css/fetch.js:183-187 | two lower-case digits per byte, in order, the high nibble first |
| Hex.DecodeEncode | app/css/fetch.js:183-187 | decoding an encoding gives the bytes back |
| Hex.EncodeDecode | app/css/fetch.js:183-187 | every even-length lower-case hexadecimal string is the encoding of what it decodes to |
| Hex.EncodeInjective | util/fonts.js:141-145 | different byte strings never share an encoding |
| CharSet.AddChar | app/css/fetch.js:163 | `Set.add` in insertion order: the character is present, and it is appended exactly when it was new |
| CharSet.AddChars | app/css/fetch.js:163 | adding a string only grows the set at its end, leaves exactly the old and new characters, and keeps the set free of duplicates |
| CharSet.CollectStream | app/css/fetch.js:155-172 | the nested loops add exactly the characters of the plain messages and text tokens, catalog by catalog and in order |
| CharSet.AddCharsKeepFirst | app/css/fetch.js:153-174 | from an empty set, the fold keeps each character at its first occurrence |
| CharSet.KeepFirstOrder | app/css/fetch.js:153-174 | the first-occurrence list holds every character once and lists them in the order of their first occurrences |
| CharSet.LoadChars | app/css/fetch.js:151-175 | `loadChars` returns each character of the English then Chinese messages once, in the order of first appearance, with nothing else |
| CharSet.EnglishFirst | app/css/fetch.js:155-158 | the result starts with what the English catalog alone yields, and the Chinese catalog only adds characters that English lacks |
| CharSet.PlaceholdersIgnored | app/css/fetch.js:164-169 | placeholder tokens never contribute characters: dropping them changes nothing |

## Left out

- React hooks, effects, `ResizeObserver`, refs and components: only the
  computations they call are modelled.
- The canvas and text measurement are not modelled as such.
  - `measureText` is a parameter. The model keeps only the four metrics
    the layout reads.
  - `ctx.scale`, `resetTransform` and device-pixel scaling are left out.
    The layout origin is a parameter (`Layout.Config`); the caller's
    scaling of it by `devicePixelRatio` (`scaled(left)`, `scaled(top)`)
    is not modelled, so the placed coordinates are in whatever units the
    origin is given in.
  - `fonts()` and `document.fonts.load` are left out: they are I/O.
- `getBoundingClientRect` becomes the box width passed in
  `Checkpoint.Context`. The model assumes it is read once, as the code
  does before placing anything.
- The `ctx.save()`/`restore()` pair around the generators is left out,
  and so are the generators' writes to the context. They set
  `ctx.textBaseline = "top"` and `ctx.font` to the phrase's font before
  measuring; the model hands that font to the measurer directly and
  does not model the context's state during layout.
- `Forwarded.PlaceLetters`: the generator's letters carry no `em`. The
  model's letters carry the fixed leading there, so that both engines
  share one letter type.
- The forwarding loader, JWT encryption and decryption, routing and
  `selectLanguage`'s call to the locale matcher are not part of this
  model. They are I/O or third-party code.
- The `firefox` blocklist entry added only in development builds is left
  out, as configuration of a development server.
- `JsString.Lower`: only the ASCII letters and U+212A KELVIN SIGN are
  lower-cased. These are the only code points that `toLowerCase` turns
  into a single ASCII letter. Every other code point is kept. For the
  other ASCII code points (digits, punctuation such as the `(` in
  `AliApp(DingTalk`, and `a`-`z`) this is what `toLowerCase` does too.
  Every other non-ASCII code point is also kept, although its real lower
  case may differ. That lower case still contains a non-ASCII code
  point, so a product holding it matches no blocklist entry either way.
  `Lower` is not `toLowerCase` on non-ASCII text.
- `AcceptLanguage.Parser`: the parser returns a real number or nothing.
  `Number`'s own grammar (hex literals, `Infinity`, signed zero) is not
  modelled. The sort is stated for finite qualities, where the comparator
  `q2 - q1` is a consistent order.
- `AcceptLanguage.SortByQ` is an insertion sort rather than the engine's
  own algorithm. Its result is pinned down by the properties proved:
  ordered, a permutation, and stable, as `Array.prototype.sort` is
  required to be.
- The build scripts around `encodeHex` and `loadChars` are left out: file
  system access, downloads, SHA-256 hashing and the dynamic `import` of
  the catalogs. The catalogs are given as data.
- Layout arithmetic is exact: positions, widths, spacing and line
  advances are `real`s, not IEEE-754 doubles. The source's
  `left += width + letterSpacing`, `top += leading` and the strict
  `left + width > lineWidth` test round; a letter that fits exactly, or
  a run whose accumulated rounding error crosses the line width, can
  wrap differently in the source than in the model.
- Lone surrogates are not modelled: strings are taken as sequences of
  whole code points.
