/** The records of the post index: what the content loader hands the
    transform for one Markdown file, and the `Post` the listing view reads. */
module Posts {
  import opened JsValues
  import opened UtcTime

  /** Category given to a post whose front matter names none. */
  const DefaultCategory: string := "Article"

  /** What `toLocaleDateString` returns for a Date holding NaN. */
  const InvalidDateText: string := "Invalid Date"

  /** The front-matter keys the transform reads. `date` is the value after
      `new Date(raw)`: parsing is the host's business, so it arrives here as
      a time value, NaN when the text did not parse. */
  datatype FrontMatter = FrontMatter(
    title: JsOptional<string>,
    category: JsOptional<string>,
    featureImageUrl: JsOptional<string>,
    date: DateValue)

  /** One entry of the loader's output: `{url, frontmatter, excerpt}`. */
  datatype RawRecord = RawRecord(
    url: string,
    frontmatter: FrontMatter,
    excerpt: JsOptional<string>)

  /** `Post['date']`: the time value with its UTC hour set to 12, and its rendering
      (the source's field `string`). */
  datatype PostDate = PostDate(time: DateValue, text: string)

  datatype Post = Post(
    title: JsOptional<string>,
    category: string,
    url: string,
    excerpt: JsOptional<string>,
    featureImageUrl: JsOptional<string>,
    date: PostDate)

  /** `formatDate`: set the parsed date's UTC hour to 12, keeping its
      day, minutes, seconds and milliseconds, and render it.
      `render` stands for `toLocaleDateString('en-US', {year, month, day})`
      on a valid date, whose text depends on host locale data and time zone. */
  function FormatDate(parsed: DateValue, render: int -> string): (d: PostDate)
    ensures d.time.Ms? <==> parsed.Ms? && parsed.ms != MaxTime
    ensures d.time.Ms? ==>
      && Day(d.time.ms) == Day(parsed.ms)
      && HourFromTime(d.time.ms) == NoonHour
      && d.time.ms % MsPerHour == parsed.ms % MsPerHour
      && d.text == render(d.time.ms)
    ensures d.time.NaN? ==> d.text == InvalidDateText
  {
    var noon := ToNoon(parsed);
    if parsed.NaN? then PostDate(noon, InvalidDateText)
    else
      NoonValidity(parsed.ms);
      if noon.NaN? then PostDate(noon, InvalidDateText)
      else
        NoonFields(parsed.ms);
        PostDate(noon, render(noon.ms))
  }

  /** The per-record step of `transform`'s `map`. */
  function ToPost(raw: RawRecord, render: int -> string): (p: Post)
    ensures p.title == raw.frontmatter.title
    ensures p.url == raw.url
    ensures p.excerpt == raw.excerpt
    ensures raw.frontmatter.category.Defined? ==> p.category == raw.frontmatter.category.value
    ensures raw.frontmatter.category.IsNullish() ==> p.category == DefaultCategory
    ensures !p.featureImageUrl.Null?
    ensures raw.frontmatter.featureImageUrl.Defined? ==> p.featureImageUrl == raw.frontmatter.featureImageUrl
    ensures raw.frontmatter.featureImageUrl.IsNullish() ==> p.featureImageUrl == Undefined
    ensures p.date == FormatDate(raw.frontmatter.date, render)
  {
    var fm := raw.frontmatter;
    Post(
      fm.title,
      Coalesce(fm.category, Defined(DefaultCategory)).value,
      raw.url,
      raw.excerpt,
      Coalesce(fm.featureImageUrl, Undefined),
      FormatDate(fm.date, render))
  }
}
