# A verified model of the nextjs-starter's class resolvers and nonce pipeline

This project models the deterministic logic of a Next.js starter site in Dafny
and proves properties of that model:

- the responsive class-list resolvers;
  - `buildResponsiveGridClasses` in `lib/utils.ts`;
  - the direction, gap and alignment classes of `Stack`;
  - the gap classes, alignment classes and padding of `Section`;
- the request middleware:
  - the static-asset bypass;
  - the per-request nosecone configuration that embeds the nonce;
  - the response headers;
  - the 500 answer when nonce generation fails;
- the nonce itself:
  - `generateNonce` as base64 (section 4 of RFC 4648) of 16 random bytes;
  - the root layout's validation of the `x-nonce` header;
- the smaller rules:
  - `publicUrl`'s choice of base URL;
  - the legal index page's filter and newest-first sort;
  - the MDX `a` and `img` components and the heading sizes.

Each resolver becomes a method. The method runs the source's loop over
breakpoints `md`, `lg`, `xl`, `2xl` one step at a time, and is proved equal to
a specification function. That function's properties are the lemmas:
- ordering;
- bounds on length;
- which tokens come from the table and which are synthesised;
- the behaviour of `0` and of missing table entries.

Modules follow the source files:

| module | file |
|---|---|
| `Common` | shared option, result and string helpers; JavaScript's `String(n)` and `parseInt` |
| `Responsive` | breakpoints, responsive props, lookup tables, and the gap and alignment logic shared by `Stack` and `Section` |
| `Base64` | RFC 4648 section 4 encoding, with a decoder and the round trip |
| `LibUtils` | `lib/utils.ts` |
| `StackComponent` | `components/ui/stack.tsx` |
| `SectionComponent` | `components/ui/section.tsx` |
| `SecurityMiddleware` | `middleware.ts` |
| `RootLayout` | `app/layout.tsx` |
| `LegalPage` | `app/legal/page.tsx` |
| `MdxComponents` | `components/mdx/components.tsx` |

Conventions:

- **Lookup tables.** The generated tables in `constants/tailwind` are parameters of type `map<tier, map<value, class>>`. The tier `""` is the unprefixed one.
- **Truthiness.** An empty table string counts as absent, as JavaScript truthiness makes it. An alignment entry is a list, and a list is truthy even when empty.
- **Numbers.** Numbers are integers, and `0` is falsy.
- **Absent strings.** An absent or empty `className` is written `""`.
- **Nosecone output.** `nosecone.default` is a function parameter that maps a configuration to the headers it produces.
- **Nonce generation.** The outcome of nonce generation is an input to the middleware.
- **Random bytes.** The random bytes are an input to `generateNonce`.

Behaviour of the code that a reader might not expect, and that the model keeps:

- **Missing table entry.** A single grid value missing from the class map gives no class at all; no fallback class is made up (`lib/utils.ts:22-25`).
- **Overrides.** Every truthy `md`..`2xl` value of a responsive grid gives its prefixed class when the class map has one (`lib/utils.ts:44-48`), even the value that supplied the unprefixed base, so `{md: 4}` yields the class for 4 both unprefixed and `md:`-prefixed when both entries exist.
- **Grid default.** The default column count is 1 (`lib/utils.ts:33`).
- **`upgradeInsecureRequests`.** This directive is always set, to `false` outside production (`middleware.ts:23`).

## Model

| member | source | states |
|---|---|---|
| `Responsive.FirstTruthyIsFirst` | lib/utils.ts:32-33 | the `a \|\| b \|\| … \|\| dflt` base is the first truthy breakpoint value, and the default when none is truthy |
| `Responsive.FoundFromTable` | lib/utils.ts:34-37 | a looked-up class, when emitted, is an entry of the table |
| `Responsive.UpperSkipsSm` | components/ui/stack.tsx:119 | the breakpoints that get a prefixed class are the list without `sm` |
| `Responsive.ResponsiveGapClasses` | components/ui/stack.tsx:153-179 | the loop over `md`..`2xl` computes exactly the specification `ResponsiveGapTokens`: the base (first truthy value, else 0) only when the table has it, then each non-zero `md`..`2xl` value's table class or `"<bp>:gap-<v>"`; at most 5 classes |
| `Responsive.GapOverridesAppend` | components/ui/stack.tsx:166-177 | the overrides for consecutive breakpoint lists concatenate in order |
| `Responsive.GapOverridesUpper` | components/ui/stack.tsx:166-177 | the overrides are the `md`, `lg`, `xl`, `2xl` contributions, in that order |
| `Responsive.GapAtCount` | components/ui/stack.tsx:167-176 | a breakpoint that is absent or 0 adds nothing, and a non-zero one adds exactly one class |
| `Responsive.GapOverridesShape` | components/ui/stack.tsx:166-177 | at most one class per breakpoint; every class is a table entry or `"<bp>:gap-<v>"` for a breakpoint whose value `v` is non-zero |
| `Responsive.GetAlignClasses` | components/ui/stack.tsx:50-76 | the loop computes exactly the specification `AlignTokens`: the base rule (the `""` tier's entry for the base value, else the fixed fallback `items-center text-center`) for a single or omitted value or a record's first value, then the `md`..`2xl` table entries; section.tsx's copy of the function is the same code |
| `Responsive.AlignOverridesFromTable` | components/ui/stack.tsx:68-73 | every prefixed alignment class comes from the table, and breakpoints without an entry add nothing |
| `Responsive.AlignTokensPresent` | components/ui/stack.tsx:51-66 | the classes start with the base rule for the base value (`Center` when omitted, the value itself, or a record's first value, else `Center`); they are empty only if the `""` tier maps that base value to an empty list; a base value missing from the table gives `items-center text-center` first, and for a non-record nothing else |
| `LibUtils.BuildResponsiveGridClasses` | lib/utils.ts:18-54 | the loop computes exactly the specification `GridTokens`: the table class for a number, or nothing; nothing for `undefined`; for a record the base (first truthy value, else 1) then the truthy `md`..`2xl` entries; at most one class for a number and at most 5 in all |
| `LibUtils.GridOverridesFromTable` | lib/utils.ts:42-51 | every prefixed class is an entry of the class map |
| `LibUtils.GridTokensFromTable` | lib/utils.ts:12-53 | every class returned, for any input, is a value of the class map: none is synthesised |
| `LibUtils.GridSingleValue` | lib/utils.ts:22-27 | a number gives exactly `[classMap[""][n]]` when that entry exists, else `[]`; `undefined` gives `[]` |
| `LibUtils.GridOverridesUpper` | lib/utils.ts:40-51 | the overrides are the `md`, `lg`, `xl`, `2xl` contributions in order |
| `LibUtils.GridMdLgExample` | lib/utils.ts:29-53 | `{md: 4, lg: 8}` gives the unprefixed class for 4, the `md` class for 4 and the `lg` class for 8, each only if present |
| `LibUtils.GridAllFalsy` | lib/utils.ts:32-51 | a record whose values are all absent or 0 gives only the unprefixed class for 1 |
| `LibUtils.GenerateNonce` | lib/utils.ts:56-70 | fails without a random source or without an encoder; succeeds exactly when both exist, with the base64 encoding of the random bytes: 24 characters ending in `==` that decode back to exactly those 16 bytes |
| `LibUtils.PublicUrlString` | lib/utils.ts:72-80 | the string handed to `new URL` starts with `http` and ends with the chosen environment value |
| `LibUtils.WithScheme` | lib/utils.ts:78-80 | the scheme rule yields an `http…` string ending in its input; `LibUtils.WithSchemeRule` says when `https://` is added |
| `LibUtils.AppUrl` | lib/utils.ts:73-76 | the chosen base is non-empty and is the production URL, the deployment URL or `http://localhost:3000`; `LibUtils.AppUrlChoice` gives the order |
| `LibUtils.AppUrlChoice` | lib/utils.ts:73-76 | the production URL if set and non-empty, else the deployment URL if set and non-empty, else `http://localhost:3000` |
| `LibUtils.WithSchemeRule` | lib/utils.ts:79 | `https://` is prepended exactly when the string does not start with `http`; the rule is idempotent; `httpbin.org` is left unchanged |
| `Base64.EncodeShape` | lib/utils.ts:60-66 | an encoding has `4⌈n/3⌉` characters: alphabet characters, then `(3 - n mod 3) mod 3` padding `=` |
| `Base64.SixteenBytes` | lib/utils.ts:58-66 | 16 bytes encode to 24 characters, the first 22 in the alphabet, ending with `==` |
| `Base64.DecodeEncode` | lib/utils.ts:60-66 | decoding an encoding gives back the bytes |
| `StackComponent.DirectionClasses` | components/ui/stack.tsx:89-140 | the code, with its loop, computes exactly the specification `DirectionTokens`: a single direction's class or `flex-row`/`flex-col`, then `items-center` for a row; for a record the base only if in the table, then each breakpoint's class or fallback and `"<bp>:items-center"` for a row; at most 9 classes for a record |
| `StackComponent.ResponsiveDirectionClasses` | components/ui/stack.tsx:119-138 | the loop over `md`..`2xl` computes exactly the direction overrides, at most two classes per breakpoint |
| `StackComponent.GapClasses` | components/ui/stack.tsx:143-180 | the code computes exactly the specification `StackGapTokens`: a number, 0 included, gives its table class or `gap-<n>`; a record gives the responsive cascade; no gap gives nothing; at most 5 classes |
| `StackComponent.Stack` | components/ui/stack.tsx:78-191 | the component computes exactly the specification `StackTokens`: `flex`, the direction, gap and alignment classes, then `className`; the first class is `flex` |
| `StackComponent.StackOrder` | components/ui/stack.tsx:183-188 | the list starts with `flex`; `className` is appended last exactly when non-empty, and the rest of the list does not depend on it |
| `StackComponent.SingleDirection` | components/ui/stack.tsx:80-99 | one class, plus `items-center` exactly for a row; a missing entry gives `flex-row`/`flex-col`; an omitted direction is a column |
| `StackComponent.DirectionAtShape` | components/ui/stack.tsx:121-137 | a breakpoint without a value adds nothing, a column adds one class, a row adds two ending in `"<bp>:items-center"` |
| `StackComponent.DirectionOverridesUpper` | components/ui/stack.tsx:119-137 | the direction overrides are the `md`, `lg`, `xl`, `2xl` contributions in order |
| `StackComponent.FooterDirection` | components/layout/main-footer.tsx:14 | `{sm: "column", md: "row"}` gives the table's column class if any, the md row class or `md:flex-row`, then `md:items-center` |
| `StackComponent.NumericGap` | components/ui/stack.tsx:143-150 | a numeric gap, 0 included, always gives exactly one class, `gap-<n>` when the table lacks it; no gap gives none |
| `StackComponent.RecordGapZeros` | components/ui/stack.tsx:156-177 | a record of zeros gives only the table's class for 0, if any: 0 overrides are skipped |
| `SectionComponent.BuildGapClasses` | components/ui/section.tsx:42-87 | the code computes exactly the specification `SectionGapTokens`: nothing for an omitted or 0 gap, else `flex flex-col` then the numeric class or fallback, or the responsive cascade |
| `SectionComponent.Section` | components/ui/section.tsx:120-153 | the component computes exactly the specification `SectionSpec`: a `bg-primary` wrapper exactly for `fullWidth`, the section's id and padding plus `className`, the inner `container` with alignment and gap classes |
| `SectionComponent.WrapperRule` | components/ui/section.tsx:133-150 | the wrapper exists exactly for `fullWidth` and then carries `bg-primary` and the same custom class as the section; `className` is on the section exactly when non-empty |
| `SectionComponent.PaddingAndContainer` | components/ui/section.tsx:130-137 | padding is `py-16 md:py-25` exactly for a hero, else `py-16`; the inner list starts with `container` |
| `SectionComponent.GapBlock` | components/ui/section.tsx:43-54 | the gap classes are empty exactly for an omitted or 0 gap, and otherwise start with `flex flex-col`; a non-zero number adds exactly one class, `gap-<n>` when missing from the table |
| `SectionComponent.ZeroRecordGap` | components/ui/section.tsx:56-83 | a record of zeros still gives `flex flex-col`, then only the table's class for 0 if any |
| `SectionComponent.InnerAlignment` | components/ui/section.tsx:127-139 | after `container` come exactly the alignment classes, starting with the base rule for the base value, and then exactly the gap classes; the alignment part is empty only if the table maps that base value to an empty list |
| `SecurityMiddleware.ExtensionsLowerCase` | middleware.ts:37 | every listed extension ends in a lower-case letter or digit |
| `SecurityMiddleware.UpperCaseIsNoAsset` | middleware.ts:36-38 | a path ending in an upper-case letter has no asset extension |
| `SecurityMiddleware.NoDotIsNoAsset` | middleware.ts:36-38 | a path without a dot has no asset extension |
| `SecurityMiddleware.IsStaticAsset` | middleware.ts:33-39 | the bypass test: a `/_next` or `/api` prefix always bypasses, and any other bypassing path ends in `.` followed by one of the listed extensions; `SecurityMiddleware.BypassRule` and the lemmas below state the rest |
| `SecurityMiddleware.BypassExamples` | middleware.ts:33-41 | `/apiary`, a `/_next` script and a `.md` file bypass; `/a.PNG` and `/legal/privacy` do not |
| `SecurityMiddleware.CreateNoseconeConfig` | middleware.ts:8-27 | `createNoseconeConfig(nonce)`: the defaults' settings are kept, the directives are the default ones plus the five overridden, and `scriptSrc` lists `'nonce-N'`; `SecurityMiddleware.ConfigDirectives` gives every value |
| `SecurityMiddleware.ConfigDirectives` | middleware.ts:8-22 | `scriptSrc` is exactly `'self'`, `'nonce-N'`, the Google Fonts stylesheet host; `imgSrc`, `fontSrc`, `connectSrc` are the fixed lists; all other defaults are kept and nothing else is added |
| `SecurityMiddleware.UpgradeOnlyInProduction` | middleware.ts:23 | `upgradeInsecureRequests` is on exactly when `NODE_ENV` is `production` |
| `SecurityMiddleware.ConfigDeterminesNonce` | middleware.ts:8-17 | two nonces give the same configuration exactly when they are equal |
| `SecurityMiddleware.Headers.constructor` | middleware.ts:62-66 | a fresh response has no header |
| `SecurityMiddleware.Headers.Set` | middleware.ts:70 | `set` maps the key to the value, replacing an earlier value |
| `SecurityMiddleware.ApplyHeadersLastWins` | middleware.ts:69-71 | after the `set`s, a key is present exactly when it was before or some pair sets it; the last pair for a key gives its value; other keys keep theirs |
| `SecurityMiddleware.MiddlewareSpec` | middleware.ts:29-77 | `middleware` as a function: pass-through exactly for static assets, the plain 500 response exactly for a failed nonce otherwise, and otherwise a secured response whose own headers carry `x-nonce = N`, with the request headers forwarded unchanged |
| `SecurityMiddleware.Middleware` | middleware.ts:29-77 | the code, with its header loop, computes exactly the specification `MiddlewareSpec`: pass-through for static assets, the 500 response on a failed nonce, else nosecone's headers for the per-request configuration plus `x-nonce`, with the request headers forwarded |
| `SecurityMiddleware.BypassRule` | middleware.ts:33-41 | a request passes through exactly when it is a static asset, and then whatever the nonce generation would give |
| `SecurityMiddleware.FailureRule` | middleware.ts:45-52 | a failed nonce generation gives status 500 with body `Internal Server Error` and no header |
| `SecurityMiddleware.SecuredRule` | middleware.ts:54-76 | the secured response maps `x-nonce` to N even over a nosecone header of that name; every other nosecone header has its last value; no other header is added; request headers are forwarded unchanged |
| `SecurityMiddleware.CorrectedMiddlewareSpec` | middleware.ts:62-74 | the corrected middleware also forwards `x-nonce = N` on the request headers and keeps every other request header |
| `SecurityMiddleware.CorrectionKeepsResponse` | middleware.ts:62-74 | the correction changes only the forwarded request headers of a secured response |
| `RootLayout.MatchesNoncePattern` | app/layout.tsx:36 | the regex test; a match starts with a class character and ends with at most two `=`; `RootLayout.MatchesIffInLanguage` proves it equal to the pattern's language |
| `RootLayout.MatchesIffInLanguage` | app/layout.tsx:36 | the matcher accepts exactly one or more `[A-Za-z0-9+/]` followed by zero to two `=` |
| `RootLayout.ValidNonce` | app/layout.tsx:34-42 | a nonce is kept, unchanged, exactly when present and in the pattern's language; absent or empty gives none |
| `RootLayout.LayoutNonce` | app/layout.tsx:29-42 | the nonce the theme provider gets: only the request's own non-empty `x-nonce`, and only when it matches the pattern; none without the header |
| `RootLayout.PatternExamples` | app/layout.tsx:36 | `=`, `a=b` and `ab===` are rejected; `ab+/9Z==` is accepted |
| `RootLayout.NonceCharIsAlphabet` | app/layout.tsx:36 | the character class is the base64 alphabet |
| `RootLayout.EncodingMatches` | app/layout.tsx:36 | the base64 encoding of any non-empty byte string matches the pattern |
| `RootLayout.GeneratedNonceAccepted` | lib/utils.ts:56-69 | every nonce `generateNonce` returns passes the layout's check unchanged |
| `RootLayout.LayoutMissesMiddlewareNonce` | app/layout.tsx:29-30 | as written, the response carries `x-nonce = N`, yet a layout reading the forwarded request headers gets no nonce |
| `RootLayout.LayoutTakesClientNonce` | app/layout.tsx:29-37 | as written, a valid-looking `x-nonce` sent by the client is what the layout uses |
| `RootLayout.CorrectedLayoutGetsNonce` | app/layout.tsx:29-42 | with the corrected middleware, the layout gets exactly the generated nonce, the same one as the response's `x-nonce` |
| `LegalPage.Published` | app/legal/page.tsx:21 | the filter keeps only published documents, is no longer than its input, and never adds a document the input lacks |
| `LegalPage.SortByDateDesc` | app/legal/page.tsx:22-24 | the newest-first sort keeps length and multiset; `LegalPage.SortFacts` adds order and stability |
| `LegalPage.InsertMultiset` | app/legal/page.tsx:22-24 | insertion adds exactly the inserted document |
| `LegalPage.InsertSorted` | app/legal/page.tsx:22-24 | insertion keeps a newest-first list newest first |
| `LegalPage.InsertWithDate` | app/legal/page.tsx:22-24 | an inserted document goes before every other document of its date |
| `LegalPage.SortFacts` | app/legal/page.tsx:22-24 | the sort is a permutation, newest first, and stable: the documents of any one date keep their input order |
| `LegalPage.PublishedMultiset` | app/legal/page.tsx:21 | each published document is kept as often as it occurs, and nothing is added |
| `LegalPage.PublishedMembers` | app/legal/page.tsx:21 | the filter keeps exactly the published documents |
| `LegalPage.AllPublished` | app/legal/page.tsx:21 | with every document published the filter changes nothing |
| `LegalPage.ListingFacts` | app/legal/page.tsx:20-24 | the listing holds only published documents, newest first; it is a permutation of the published input, of the same length; equal dates keep input order |
| `LegalPage.Listing` | app/legal/page.tsx:20-24 | the page's list is newest first and a permutation of the published documents; `LegalPage.ListingFacts` states the rest |
| `LegalPage.NewestFirstExample` | app/legal/page.tsx:22-24 | two documents of different dates are listed newer first whatever the input order |
| `LegalPage.Render` | app/legal/page.tsx:35-67 | the empty state, with its message, only for an empty listing; otherwise one card per listed document; `LegalPage.RenderRule` states the cards |
| `LegalPage.RenderRule` | app/legal/page.tsx:35-67 | the empty-state message is shown exactly when nothing is published; otherwise one card per listed document in order, with its slug, id, title, and its description exactly when non-empty |
| `MdxComponents.HeadingSize` | components/mdx/components.tsx:16-45 | each heading's `size` lies between 16 and 48; `MdxComponents.HeadingSizesDecrease` gives the order |
| `MdxComponents.HeadingSizesDecrease` | components/mdx/components.tsx:16-45 | h1..h6 sizes 48, 40, 32, 24, 20, 16 strictly decrease with the level and tell headings apart |
| `MdxComponents.RenderLink` | components/mdx/components.tsx:46-72 | `a`: a plain anchor exactly for `http`, `mailto:`, `tel:` hrefs, the href kept, the link class first, every rest prop passed through; `MdxComponents.LinkRule` states `target` and `rel` |
| `MdxComponents.LinkRule` | components/mdx/components.tsx:46-72 | a plain anchor exactly for `http`, `mailto:`, `tel:` hrefs; `target="_blank"` and `rel="noopener noreferrer"` exactly for `http`, unless a prop overrides them; the link class before `className`; props passed through |
| `MdxComponents.LinkExamples` | components/mdx/components.tsx:52-72 | mail and phone links get neither `target` nor `rel`; a relative path uses the router; a relative `http-status` is treated as external |
| `MdxComponents.RenderImage` | components/mdx/components.tsx:99-115 | `img`: `rounded-md border` first, the rest props passed as they are, 800 by 600 for falsy dimensions; `MdxComponents.ImageRule` states the other defaults |
| `MdxComponents.DimensionRule` | components/mdx/components.tsx:111-112 | a falsy dimension takes the default; a number survives `toString`/`parseInt`; a string is read by `parseInt` |
| `MdxComponents.ImageRule` | components/mdx/components.tsx:99-115 | 800 by 600 unless given; `alt` and a non-string `src` default to `""`; `rounded-md border` before `className` |
| `MdxComponents.StringDimensionExamples` | components/mdx/components.tsx:111 | `"640px"` gives 640 and `"auto"` gives NaN |
| `Common.ParseInt` | components/mdx/components.tsx:111-112 | `parseInt` without a radix: a number needs a non-blank string, and a negative one a leading `-` after the white space |
| `Common.IntToDecimal` | components/ui/stack.tsx:149 | the `${n}` of a template literal: non-empty, a leading `-` exactly for a negative number, digits after it |
| `Common.ParseIntOfDecimal` | components/mdx/components.tsx:111-112 | `parseInt(String(n))` is `n` for every integer |

## Left out

- **`cn`.** The model stops at the list of classes handed to `cn` in every component. The `clsx`/`tailwind-merge` merging is a foreign library.
- **Generated tables.** The tables of `constants/tailwind` are parameters; their contents are not part of this model. The same holds for `RESPONSIVE_BREAKPOINTS`, which is taken as `sm, md, lg, xl, 2xl`.
- **Tiers read without `?.`.** `Stack` reads `directionClasses[""]`, `directionClasses[bp]` and, for a numeric gap, `gapClasses[""]` without `?.`. A missing tier would throw a `TypeError`, so the model requires those tiers to exist (`StackComponent.DirectionClasses`, `StackComponent.GapClasses`, `StackComponent.Stack`).
- **Non-integer numbers.** Numbers are integers: NaN, fractional values and `-0` are not modelled. Neither is `Number.prototype.toString`'s exponent notation for large numbers.
- **`parseInt` precision.** `parseInt` is modelled with unbounded integers, so precision loss beyond 2^53 is not modelled.
- **Nosecone.** `nosecone.default`, the header serialisation, is a parameter. Its non-directive settings are opaque strings that the configuration copies.
- **Header names.** The model's `Headers` compares names exactly, while the WHATWG `Headers` class lower-cases them. So headers whose names differ only in case are two entries here and one in the runtime; a nosecone header `X-Nonce` would stay beside `x-nonce` instead of being replaced. The extra internal headers `NextResponse.next` adds are not modelled.
- **Randomness and encoders.** `crypto.getRandomValues`, `btoa` and `Buffer` are foreign. The random bytes and the available encoder are inputs, and both encoders are taken to produce RFC 4648 section 4 base64.
- **URLs and metadata routes.** `new URL`, `absoluteUrl`, `app/sitemap.ts` and `app/robots.ts` are not part of this model. They rest on WHATWG URL resolution and the clock; `publicUrl` is modelled up to the string it parses.
- **Dates.** `formatDate` and `toLocaleDateString` are foreign. The card keeps the integer date instead of its formatted text.
- `LegalPage.RenderRule`: the card always carries the date. A document without a date is not modelled, because `compareDesc` on an invalid date returns NaN and makes the sort order implementation-defined. The `legal.date &&` guard therefore always passes here.
- **Logging.** `console.error` and `console.warn` only log.
- **Client-side UI.** The navbar, footer markup, main layout, template and reduced-motion hook are not part of this model. Neither is MDX rendering through `useMDXComponent`, nor the theme provider that receives the nonce.
- **Unmodelled MDX components.** The `p`, `ul`, `ol`, `li`, `blockquote`, `tr`, `th`, `td`, `pre` and `code` components only hand a fixed class and `className` to `cn`. `table` does the same and wraps the table in a scrolling `div`. `hr` has a fixed `className` that a `className` prop replaces, without `cn` (`components/mdx/components.tsx:116`).

## Findings

| source | as written | input that shows it | evidently intended | confidence | as-written member | corrected member |
|---|---|---|---|---|---|---|
| middleware.ts:62-74 | `x-nonce` is set on the response headers only, and the request goes on with `request.headers` unchanged. `app/layout.tsx:30` reads `x-nonce` from the request headers, so the layout never sees the nonce put into the policy. A client can instead supply its own `x-nonce`, which the layout then uses. | any page request without an `x-nonce` header: the response has `x-nonce = N`, the layout gets no nonce; a request with `x-nonce: ab+/9Z==` makes the layout use `ab+/9Z==` | forward the nonce on the request headers too, so that the layout gets the nonce of the policy | medium, not executed; it rests on how Next.js separates the headers of the forwarded request from those of the response | `RootLayout.LayoutMissesMiddlewareNonce` | `RootLayout.CorrectedLayoutGetsNonce` |
