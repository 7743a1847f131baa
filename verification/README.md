# Blog site logic: pagination, link classification, contact-form encoding

This project models in Dafny the three pieces of plain logic in a
personal blog built with a static-site generator. The rest of the site is
page markup and content queries.

1. **Blog-index paginator** (`Pagination`). The build script counts the
   published posts and creates one listing page per five posts. The first
   page lives at `/blog` and page `k > 1` at `/blog/k`. Each page carries
   `limit = 5`, `skip = 5 * i`, `nextPage = /blog/(i+2)` and
   `pageNumber = i + 1`. The page-registration callback is replaced here by
   returning the page descriptors. The listing template shows the window
   `[skip, skip + limit)` of the date-sorted posts (`PostsOnPage`). The
   pagination widget shows its "next" link only when more posts follow
   (`NextLinkTarget`).
2. **Internal/external link classifier** (`Regex`, `Links`). The flexible
   link and the hover link both test the destination with `/^\/(?!\/)/`.
   A match gives a client-side router link and anything else a plain `<a>`.
   The regular expression is modelled as a small pattern value run by a
   matcher with the search semantics of `RegExp.prototype.test`. Its
   reference definition is the absolute-path / network-path distinction of
   section 4.2 of RFC 3986.
3. **Contact-form body encoder** (`FormEncoding`, `UriComponent`,
   `ContactForm`). `encode` writes `enc(key)=enc(value)` per key and joins
   the entries with `&`. `FormEncoding` takes the encoder as a parameter.
   Its properties need one assumption, `EncoderSafe`: the encoder never
   emits `&` or `=`. `UriComponent` models the encoder the site actually
   passes, `encodeURIComponent`. For that encoder the assumption is proved
   (`EncoderOmitsFormDelimiters`), and so is the inverse
   (`DecodeEncode`, via `decodeURIComponent`). Spaces become `%20`, not the
   `+` of the WHATWG URL Standard's application/x-www-form-urlencoded
   serializer (section 5). The inverse of the encoder is `Parse`, which
   splits the body on `&` and each piece at its first `=`, followed by
   `DecodeEntries`, which decodes each name and value with
   `decodeURIComponent`. This is not the WHATWG parser: that one turns `+`
   into a space and never fails, while `decodeURIComponent` can fail.

JavaScript objects, including object spread, JSX attribute spread and
React's shallow `setState` merge, are modelled in `JsObject` as ordered
association lists. That model is what the "key order" properties of the
body rest on.

The paginator has no page-size parameter and no error path. The page size
is the constant 5 (`PostsPerPage`).

## Model

| member | source | states |
|---|---|---|
| Decimal.NatToString | gatsby-node.js:51 | The page number in a path is a numeral: non-empty, digits only, no leading zero, one digit exactly below 10 |
| Decimal.ParseNatToString | gatsby-node.js:51 | Reading the numeral back gives the number, so the rendering loses nothing |
| Decimal.NatToStringInjective | gatsby-node.js:51 | Different page numbers give different numerals |
| Pagination.NumPages | gatsby-node.js:45-46 | `Math.ceil(n / 5)` for whole `n`: the least page count whose pages hold all `n` posts; zero exactly when there are no posts |
| Pagination.PageAt | gatsby-node.js:50-58 | Each descriptor's fields agree: its page number is its position plus one, `limit` is 5, and `skip` is `(pageNumber - 1) * limit`, so the window starts after the full pages before it |
| Pagination.Paginate | gatsby-node.js:46-60 | One descriptor per page, `ceil(n / 5)` of them, and every page's offset lies inside the post list (no empty page) |
| Pagination.CreatePages | gatsby-node.js:49-60 | The build loop, which creates one page per index in order, produces exactly the descriptors of `Paginate` |
| Pagination.PostsOnPage | src/blog/index.jsx:42-48 | The listing shows at most `limit` posts. Nothing is shown when `skip` is past the end. Otherwise it shows the posts `skip, skip + 1, …` in order, up to `skip + limit` or the end of the list |
| Pagination.PostsOnPageAt | src/blog/index.jsx:42-48 | The listing of generated page `i` shows the posts with indices `[5i, 5i + 5)` clipped to the list |
| Pagination.ListingPrefix | gatsby-node.js:54-55 | Reading the first `k` pages in order shows exactly the first `min(5k, n)` posts |
| Pagination.ListingIsPartition | gatsby-node.js:54-55 | Read in order, the pages show every post exactly once, in input order |
| Pagination.PostOnExactlyOnePage | gatsby-node.js:54-55 | Post `j` falls in the window of page `j / 5`, which exists, and in no other page's window |
| Pagination.PageSizes | gatsby-node.js:45-55 | Every page but the last shows exactly 5 posts; the last shows between 1 and 5 |
| Pagination.SkipLimit | gatsby-node.js:54-55 | `limit` is 5 on every page, the first `skip` is 0, and `skip` grows by exactly 5 from page to page |
| Pagination.PageNumbersAndPaths | gatsby-node.js:51-57 | Page numbers run `1..numPages`; page 1 is at `/blog`, and page `k > 1` at `/blog/` followed by `k` |
| Pagination.NumberedPathInjective | gatsby-node.js:51 | `/blog/a` and `/blog/b` are the same path only when `a = b` |
| Pagination.PathsDistinct | gatsby-node.js:51 | No two pages share a path |
| Pagination.PageAtPathsDistinct | gatsby-node.js:51 | Pages at different positions get different paths |
| Pagination.BlogOneNeverGenerated | gatsby-node.js:51 | No page is created at `/blog/1` |
| Pagination.NextPageTargets | gatsby-node.js:51-56 | `nextPage` is `/blog/(i+2)` on every page. Before the last page it is the next page's path. On the last page it is still set but names no created page |
| Pagination.LastNextPageNotGenerated | gatsby-node.js:51-56 | The last page's `nextPage` is not the path of any generated page |
| Pagination.HasNextPage | src/blog/index.jsx:68-70 | For any descriptor shaped as the build shapes it, "more posts follow" holds exactly when its page number is below the page count |
| Pagination.NextLinkTarget | src/blog/pagination.jsx:12-13 | The widget renders a link exactly when `hasNextPage` is set, and the link goes to `nextPage` unchanged |
| Pagination.HasNextPageIffNotLast | src/blog/index.jsx:68-70 | With `hasNextPage` read as "the window ends before the list does", it holds on every page but the last |
| Pagination.NextLinkIsGenerated | src/blog/pagination.jsx:12-13 | Whenever the "next" link is rendered, its target is the path of a created page |
| Pagination.Examples | gatsby-node.js:44-60 | 12 posts give `/blog`, `/blog/2`, `/blog/3` with skips 0, 5, 10 and next pages up to `/blog/4`; 5 posts give one page whose `nextPage` is `/blog/2`; 0 posts give none |
| Regex.SearchFromFindsMatch | src/common/links/flex-link.jsx:14 | The scan over start positions succeeds exactly when the pattern matches at some position from the start of the scan to the end of the input |
| Regex.Test | src/common/links/flex-link.jsx:14 | `test` succeeds exactly when the pattern matches at some position of the input |
| Links.InternalPatternIsAbsolutePath | src/common/links/flex-link.jsx:14 | `/^\/(?!\/)/` matches exactly the strings that start with `/` and whose second character, if any, is not `/` |
| Links.ComponentsAgree | src/common/links/hover-link.js:6 | The hover link's pattern classifies every string as the flexible link's does |
| Links.Classifications | src/common/links/flex-link.jsx:14 | `/` alone, `/about` and `/contact` are internal; the empty string, `//host/...` and `https://github.com/madelyneriksen/` are external |
| Links.NetworkPathIsExternal | src/common/links/flex-link.jsx:14 | Every destination beginning `//` is external |
| Links.FlexLink | src/common/links/flex-link.jsx:14-18 | Router link exactly for absolute-path destinations, otherwise an anchor. The destination goes through unchanged, as `to` or as `href`. The other props and the children are passed as given |
| Links.HoverLink | src/common/links/hover-link.js:6-13 | Router link exactly for absolute-path destinations, otherwise an anchor. The props are the unchanged destination plus the same class string in both branches |
| Links.SameBranch | src/common/links/hover-link.js:6-13 | For every destination, both components render the same kind of element |
| Links.NavbarClassification | gatsby-config.js:4-7 | Of the configured navbar links, HOME, ABOUT and CONTACT are internal and PROJECTS is external |
| Links.OldNavbarAboutIsRouterLink | src/common/components/navbar.js:9 | The old navbar's hover link to `/about` renders as a router link |
| JsObject.Keys | src/contact/form.jsx:6 | `Object.keys` lists exactly one key per property; which key sits at which position is stated by `KeysAt` |
| JsObject.Lookup | src/contact/form.jsx:7 | Reading `data[key]` finds a value exactly when the key is present |
| JsObject.Put | src/contact/form.jsx:38 | Assigning a key sets it and leaves every other key as it was. An existing key keeps its position; a new key is appended |
| JsObject.PutKeepsDistinct | src/contact/form.jsx:38 | Assignment never duplicates a key |
| JsObject.KeysAt | src/contact/form.jsx:6 | The `i`-th key `Object.keys` lists is the key of the `i`-th property |
| JsObject.LookupAt | src/contact/form.jsx:7 | In an object (distinct keys), reading the `i`-th property's key gives the `i`-th property's value |
| JsObject.Spread | src/contact/form.jsx:38 | Object spread never drops or reorders the target's keys: they stay a prefix of the result's keys |
| JsObject.SpreadLookup | src/contact/form.jsx:38 | After `{...target, ...src}`, a key has `src`'s value when `src` has it, and `target`'s value otherwise |
| JsObject.SpreadKeepsDistinct | src/contact/form.jsx:38 | A spread object has no duplicate keys |
| JsObject.SpreadNewKeys | src/contact/form.jsx:38 | Spreading keys the target lacks appends them after the target's keys, in `src` order |
| JsObject.SpreadExistingKeys | src/contact/form.jsx:25-31 | Spreading keys the target already has leaves the key order unchanged |
| UriComponent.Utf8Encode | src/contact/form.jsx:7 | One to four UTF-8 bytes per character, one byte exactly for ASCII, and continuation bytes after the first |
| UriComponent.EscapeBytes | src/contact/form.jsx:7 | The escapes are three characters per byte, all of them `%` or upper-case hex digits, starting with `%`. The per-byte layout is `EscapeBytesAt` |
| UriComponent.EscapeBytesAt | src/contact/form.jsx:7 | Characters `3i` to `3i + 2` are the `%XX` escape of byte `i`, so the escapes come one per byte, in order |
| UriComponent.EncodeChar | src/contact/form.jsx:7 | The encoding of one character is non-empty and uses only unreserved characters, `%` and upper-case hex digits |
| UriComponent.EncodeUriComponent | src/contact/form.jsx:7 | `encodeURIComponent` emits only unreserved characters, `%` and upper-case hex digits, and never shortens its input |
| UriComponent.EncoderOmitsFormDelimiters | src/contact/form.jsx:7 | `encodeURIComponent`'s output never contains `&` or `=` |
| UriComponent.UnreservedUnchanged | src/contact/form.jsx:7 | A string of unreserved characters encodes to itself |
| UriComponent.EscapeExamples | src/contact/form.jsx:7 | A space encodes as `%20` (not `+`); `&`, `=` and `+` encode as `%26`, `%3D` and `%2B` |
| UriComponent.CodePointAppend | src/contact/form.jsx:7 | A continuation byte carrying the low six bits of `x`, after bytes that encode `x / 64`, makes the sequence encode `x` |
| UriComponent.CodePointOfUtf8 | src/contact/form.jsx:7 | Re-assembling a character's UTF-8 bytes gives its code point, and the lead byte announces the right length |
| UriComponent.Utf8RoundTrip | src/contact/form.jsx:7 | UTF-8 decoding inverts UTF-8 encoding |
| UriComponent.UnescapeEscapeBytes | src/contact/form.jsx:7 | Reading back the escapes of a byte sequence gives that sequence |
| UriComponent.DecodeEncodedChar | src/contact/form.jsx:7 | Decoding reads exactly one encoded character off the front of its input |
| UriComponent.DecodeEncode | src/contact/form.jsx:7 | `decodeURIComponent(encodeURIComponent(s))` is `s` for every string |
| UriComponent.EncodeInjective | src/contact/form.jsx:7 | Different strings have different encodings |
| FormEncoding.Join | src/contact/form.jsx:8 | `join("&")` of no parts is empty; otherwise its length is the parts' total length plus one separator between each neighbouring pair |
| FormEncoding.SplitJoin | src/contact/form.jsx:8 | Splitting on the separator undoes the join when no part contains the separator |
| FormEncoding.CountInJoin | src/contact/form.jsx:8 | A join of separator-free parts contains one separator fewer than it has parts |
| FormEncoding.EncodePair | src/contact/form.jsx:7 | With a safe encoder, one `key=value` entry contains no `&` |
| FormEncoding.EncodedPairs | src/contact/form.jsx:6-7 | One entry per property. The `enc(key)=enc(value)` shape of each entry is stated by `SplitBody` |
| FormEncoding.EncodedPairsByKey | src/contact/form.jsx:6-7 | The entries built as the source builds them, by mapping over `Object.keys(data)` and reading `data[key]`: one per key |
| FormEncoding.EncodedPairsReadByKey | src/contact/form.jsx:6-7 | For an object (distinct keys), reading each value by its key gives the same entries as taking the properties in order |
| FormEncoding.Encode | src/contact/form.jsx:4-9 | An object with no keys encodes to the empty string |
| FormEncoding.AmpersandCount | src/contact/form.jsx:7-8 | With a safe encoder, a body of `k` entries contains exactly `k - 1` ampersands |
| FormEncoding.BodyLength | src/contact/form.jsx:7-8 | A body's length is the sum of its entries' lengths plus `k - 1` |
| FormEncoding.SplitBody | src/contact/form.jsx:6-8 | With a safe encoder, splitting on `&` gives the entries in key order, and splitting each entry on `=` gives `[enc(key), enc(value)]` |
| FormEncoding.BodyBeginsWithFirstPair | src/contact/form.jsx:6-8 | A one-entry body is that entry. A longer body begins with its first entry `enc(key)=enc(value)` followed by `&`, whatever the encoder does to that key and value |
| FormEncoding.ParseEncode | src/contact/form.jsx:4-9 | With a safe encoder, the form parser recovers the `(enc(key), enc(value))` pairs in key order, none for an empty object |
| FormEncoding.RoundTrip | src/contact/form.jsx:4-9 | With a safe encoder that a decoder inverts, parsing and decoding a body gives back the encoded object |
| ContactForm.InitialStateIsFormState | src/contact/form.jsx:15-20 | The initial state has the fields `name`, `email`, `message`, `alert` in that order, all empty |
| ContactForm.SetField | src/contact/form.jsx:25-31 | The shallow `setState` merge gives the field its new value and keeps every existing key in its place |
| ContactForm.SetFieldEffect | src/contact/form.jsx:25-31 | A field update sets that field, leaves the others alone, and keeps the declared fields in their order |
| ContactForm.SubmittedObject | src/contact/form.jsx:38 | The submitted object always has `form-name` as its first key |
| ContactForm.SubmittedObjectContents | src/contact/form.jsx:38 | The state's values reach the submitted object unchanged. Without a `form-name` key in the state, `form-name` comes first and keeps the form name |
| ContactForm.SubmittedBody | src/contact/form.jsx:38 | The body `onSubmit` builds has exactly one `&` fewer than the submitted object has entries |
| ContactForm.UriComponentFitsForm | src/contact/form.jsx:7 | The encoder the form uses meets the encoder assumption, and `decodeURIComponent` inverts it |
| ContactForm.SubmittedFields | src/contact/form.jsx:15-38 | For any form state, the submitted keys are `form-name`, `name`, `email`, `message`, `alert` in that order, and `form-name` is `contact` |
| ContactForm.SetFieldKeepsShape | src/contact/form.jsx:25-38 | After any field update, the submitted key order is still `form-name` then the state fields |
| ContactForm.BodyRoundTrip | src/contact/form.jsx:38 | The submitted body parses and decodes back to exactly the submitted object |
| ContactForm.FormNameUnescaped | src/contact/form.jsx:38 | `form-name` and `contact` are sent as written |
| ContactForm.SubmittedObjectHead | src/contact/form.jsx:38 | For a form state, the submitted object has five entries, and the first is `("form-name", "contact")` |
| ContactForm.FormNameEntryFirst | src/contact/form.jsx:38 | An object of two or more entries whose first entry is the form name encodes to a body beginning `form-name=contact&` |
| ContactForm.BodyPrefix | src/contact/form.jsx:33-38 | For every form state, the body `onSubmit` builds begins `form-name=contact&` |

## Left out

- Page registration, the content query and its error branch (gatsby-node.js:6-38): these are calls into the site generator. The model returns the page descriptors instead of registering them.
- The category grouping (gatsby-node.js:42): it is computed and never used.
- `hasNextPage` comes from the content layer's `pageInfo`, which the model cannot see. `Pagination.HasNextPage` states what the flag means (the page's window ends before the post list does).
- src/blog/index.jsx neither imports nor renders the pagination widget of src/blog/pagination.jsx. The widget is modelled as a stand-alone function of its props.
- Pagination.NumPages: `Math.ceil` of a floating-point quotient is modelled as exact ceiling division. The two agree for every post count below 2^53.
- Sorting and filtering of posts are done by the content query. The model takes the post list as already sorted.
- Links.FlexLink: takes `to`, the remaining props and the children as separate arguments, and assumes every caller passes a string `to`. The prop-type declaration only logs a warning when `to` is missing. Without it the component would test `undefined`, fail, and render an anchor with no `href`. Every caller passes `to`: src/common/components/navbar/index.jsx:27,32 and src/common/components/navbar/slider.jsx:21,34.
- React rendering, JSX markup, CSS classes other than the hover link's class string, SEO tags, layouts, the navbar's open/close state and image processing are presentation only.
- The request itself, the success and failure messages and the honeypot field are network I/O and user-interface behaviour.
- The form element wires `onSubmit={this.handleSubmit}` (src/contact/form.jsx:73), but the component defines no `handleSubmit`; its handler is `onSubmit` (src/contact/form.jsx:33). As written, the browser therefore posts the form fields itself and `onSubmit` never runs. The `ContactForm` body properties are about the body `onSubmit` builds, which is what is sent once the handler is wired.
- FormEncoding.Encode: reads each value by position in the association list rather than by key. For JavaScript objects, whose keys are distinct, the two agree (`EncodedPairsReadByKey`). For a list with a repeated key, which no object can be, the model repeats the key in the body.
- JsObject: ignores the rule that array-index keys enumerate before other keys, because every key the site uses is non-numeric.
- UriComponent.EncodeUriComponent: never fails, because Dafny characters are Unicode scalar values. JavaScript strings can hold lone surrogates, for which `encodeURIComponent` throws a URIError. No form field here can hold one in this model.
