# Post index transform

This project models the blog's post index: the content-loader `transform`
in `docs/.vitepress/theme/blog/posts.data.ts`. The transform takes the
records the loader produced, one per Markdown post (`url`, `frontmatter`,
`excerpt`). It maps each record to a `Post`, sets each post's UTC hour to 12
(keeping its day, minutes, seconds and milliseconds), and sorts the posts
newest first with a stable sort.

Modules:

- `JsValues`: JavaScript's `undefined` and `null` (`JsOptional`) and the
  `??` operator (`Coalesce`).
- `UtcTime`: ECMAScript time values, following section 21.4.1 of ECMA-262.
  A time value is NaN or an integer number of milliseconds within 10^8 days
  of the epoch. The module defines `TimeClip`, the field extractors `Day`,
  `HourFromTime` and the rest, and `Date.prototype.setUTCHours` as ECMA-262
  defines it. `formatDate`'s `setUTCHours(12)` is `ToNoon`.
- `Posts`: the front matter, the raw record, `Post` and `Post['date']`. It
  also holds `formatDate` (`FormatDate`) and the per-record mapping (`ToPost`).
- `PostOrder`: the comparator `(a, b) => b.date.time - a.date.time`, and a
  stable insertion sort (`Sort`). `DatedAt(s, k)` is the subsequence of
  posts whose time is `k`. Stability means every such group keeps its input
  order.
- `PostIndex`: the whole `transform` (`Transform`), and the facts about its
  output: how many posts, which URLs, what order.

Boundaries:

- The date arrives already parsed. `new Date(raw)` is host-defined, so
  `FrontMatter.date` is the time value it produced: NaN, or an in-range
  integer. Unquoted YAML dates that the front-matter parser turns into `Date`
  objects fit the same model.
- `toLocaleDateString('en-US', …)` depends on locale data and the host's
  time zone. It is a parameter, `render: int -> string`, applied to the
  hour-12 time value. A NaN date renders as `"Invalid Date"`, as
  `toLocaleDateString` does.
- The comparator is modelled as an exact integer subtraction. JavaScript
  subtracts doubles and may round, but the difference of two distinct
  integer time values never rounds to zero or changes sign. The sort reads
  only the sign.

Two details of the source's types and calls:

- `setUTCHours(12)` replaces only the UTC hour. Minutes, seconds and
  milliseconds are kept, so `date.time` is 12:mm:ss.sss UTC, not
  necessarily 12:00:00.000 (`NoonFields`).
- `Post.category` is typed `string | null`, but `?? 'Article'` never
  produces `null`, so the model's `category` is a plain string.

## Model

| member | source | states |
|---|---|---|
| UtcTime.NoonClosedForm | docs/.vitepress/theme/blog/posts.data.ts:37 | The standard's field-by-field `setUTCHours(12)` equals the closed form `t - t mod 86400000 + 12*3600000 + t mod 3600000`, clipped to the time range |
| UtcTime.SubHourDecomposition | docs/.vitepress/theme/blog/posts.data.ts:37 | The minutes, seconds and milliseconds that `setUTCHours` reads back from the date together make up the offset into the hour |
| UtcTime.SubHourFields | docs/.vitepress/theme/blog/posts.data.ts:37 | Minutes, seconds and milliseconds depend only on the offset into the hour |
| UtcTime.NoonFields | docs/.vitepress/theme/blog/posts.data.ts:36-39 | For every in-range date except the last one, the value with its hour set to 12 is valid and has the same UTC day. Its UTC hour is 12, and its minutes, seconds, milliseconds and offset into the hour are unchanged |
| UtcTime.NoonValidity | docs/.vitepress/theme/blog/posts.data.ts:37 | For an in-range date, setting the UTC hour to 12 yields NaN if and only if the date is the last representable instant, 8.64e15 ms, because 12:00 of its day lies outside the time range |
| UtcTime.NoonIdempotent | docs/.vitepress/theme/blog/posts.data.ts:37 | Setting the UTC hour to 12 twice gives the same result as once, NaN included |
| UtcTime.MidnightToNoon | docs/.vitepress/theme/blog/posts.data.ts:36-39 | A date-only value, midnight UTC of `day`, maps to `day*86400000 + 43200000` |
| UtcTime.Jan5Example | docs/.vitepress/theme/blog/posts.data.ts:36-39 | The date 2024-01-05 is indexed at 1704456000000 ms, which is noon UTC of day 19727 |
| Posts.FormatDate | docs/.vitepress/theme/blog/posts.data.ts:35-46 | `date.time` is valid if and only if the parsed date is valid and not the last instant. A valid result keeps the UTC day and the sub-hour part, reads hour 12, and its `string` is the host's rendering of that time. An invalid result renders as "Invalid Date" |
| Posts.ToPost | docs/.vitepress/theme/blog/posts.data.ts:23-30 | `title`, `url` and `excerpt` are copied unchanged. `category` is the front matter's value when that value is not nullish (an empty string is kept) and "Article" when it is. `featureImageUrl` is the front matter's value when not nullish and `undefined` otherwise, never `null`. `date` is `formatDate` of the front-matter date |
| PostOrder.Insert | docs/.vitepress/theme/blog/posts.data.ts:31 | Inserting a post adds exactly that post: the result is a permutation of the post plus the input |
| PostOrder.InsertNewestFirst | docs/.vitepress/theme/blog/posts.data.ts:31 | Inserting into a newest-first list keeps it newest first, and keeps it below any bound that held for the post and the list |
| PostOrder.Sort | docs/.vitepress/theme/blog/posts.data.ts:31 | The sorted list is a permutation of the input, and no post is newer than one ahead of it |
| PostOrder.InsertDatedAt | docs/.vitepress/theme/blog/posts.data.ts:31 | Insertion leaves every other time group alone. Within its own group, the inserted post goes ahead of the posts already there |
| PostOrder.SortDatedAt | docs/.vitepress/theme/blog/posts.data.ts:31 | Stability: for every time `k`, the posts dated `k` appear in the output in their input order |
| PostOrder.DatedAtNonEmpty | docs/.vitepress/theme/blog/posts.data.ts:31 | A time group is non-empty if and only if some post has that time |
| PostOrder.DatedAtDetermines | docs/.vitepress/theme/blog/posts.data.ts:31 | Two newest-first lists with the same time groups are equal |
| PostOrder.SortIsTheStableSort | docs/.vitepress/theme/blog/posts.data.ts:31 | Any newest-first arrangement that keeps every time group in input order equals `Sort`'s result, so a required-stable `Array.prototype.sort` has exactly one possible output |
| PostOrder.AdjacentNewestFirst | docs/.vitepress/theme/blog/posts.data.ts:31 | A list is newest first if and only if each post is at least as new as the next one |
| PostIndex.MapRecords | docs/.vitepress/theme/blog/posts.data.ts:22-30 | The map yields one post per record, at the same position. The posts are all sortable when the dates are |
| PostIndex.Transform | docs/.vitepress/theme/blog/posts.data.ts:21-32 | The index has exactly as many posts as there are records and is a permutation of the mapped records. Each post is at least as new as the next, every time group keeps its input order, and every post's UTC hour is 12 |
| PostIndex.InsertUrls | docs/.vitepress/theme/blog/posts.data.ts:31 | Inserting a post adds exactly its URL to the multiset of URLs |
| PostIndex.SortUrls | docs/.vitepress/theme/blog/posts.data.ts:31 | Sorting keeps the multiset of URLs |
| PostIndex.MapRecordsUrls | docs/.vitepress/theme/blog/posts.data.ts:22-30 | Mapping keeps the URL sequence, position by position |
| PostIndex.UrlsPreserved | docs/.vitepress/theme/blog/posts.data.ts:21-32 | Nothing is deduplicated: every URL occurs in the index exactly as often as among the loaded records |
| PostIndex.TransformDetermined | docs/.vitepress/theme/blog/posts.data.ts:21-32 | Every stable newest-first ordering of the mapped posts equals the transform's result |

## Left out

- Parsing the front-matter date string with `new Date(raw)` (posts.data.ts:36). It is host-defined and depends on the local time zone. The model starts from the resulting time value.
- `toLocaleDateString` (posts.data.ts:40-44). Its output depends on Intl locale data and the host's time zone, so it is the opaque `render` parameter.
- `createContentLoader`'s file globbing and excerpt extraction (posts.data.ts:19-20). This is framework I/O. The records arrive as a sequence.
- Dates the comparator cannot order. These are an unparsable date (NaN) and the last representable instant, whose noon clips to NaN. With a NaN time value, `b.date.time - a.date.time` is NaN and the order `sort` produces is implementation-defined. `Transform` therefore requires `SortableDates`. `FormatDate` and `ToPost` themselves model the NaN case.
- Front-matter values of other types, such as a number given as `category`. All front-matter fields are modelled as `string`, `null` or `undefined`.
- `docs/.vitepress/config.mjs`. It is static site metadata, navigation and analytics configuration with no behaviour.
- `docs/.vitepress/theme/index.js`. It registers Vue layout and components, which is UI wiring.
