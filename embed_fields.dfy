/**
 * The text-shaping rules of the `/anime` embed (bot.py:212-288) and of the
 * `/quote` embed (bot.py:334-347): a long synopsis is cut, and the genre,
 * studio and tag lists are capped, keeping their order.
 */
module EmbedFields {
  import opened Wrappers
  import opened PyStr
  import opened Embed

  const SYNOPSIS_LIMIT: nat := 500
  const ELLIPSIS: string := "..."
  const NO_SYNOPSIS: string := "Tidak ada sinopsis tersedia."
  const MAX_GENRES: nat := 5
  const MAX_STUDIOS: nat := 3
  const MAX_TAGS: nat := 3

  const GENRE_TITLE: string := "\U{1F3F7}\U{FE0F} Genre"
  const STUDIO_TITLE: string := "\U{1F3E2} Studio"
  const TAGS_TITLE: string := "\U{1F3F7}\U{FE0F} Tags"

  /** A string-valued key of the JSON answer: absent, `null`, or a string. */
  datatype JsonString = Missing | Null | Text(s: string)

  /** The embed description of bot.py:214-218. `anime.get("synopsis", default)`
      gives the default only for a missing key; a `null` synopsis leaves the
      embed without a description. */
  function SynopsisDescription(synopsis: JsonString): (d: Option<string>)
    ensures synopsis.Missing? ==> d == Some(NO_SYNOPSIS)
    ensures synopsis.Null? <==> d == None
    ensures synopsis.Text? && |synopsis.s| <= SYNOPSIS_LIMIT ==> d == Some(synopsis.s)
    ensures synopsis.Text? && |synopsis.s| > SYNOPSIS_LIMIT ==>
      && d.Some? && |d.value| == SYNOPSIS_LIMIT + |ELLIPSIS|
      && d.value[..SYNOPSIS_LIMIT] == synopsis.s[..SYNOPSIS_LIMIT]
      && d.value[SYNOPSIS_LIMIT..] == ELLIPSIS
  {
    match synopsis
    case Missing => Some(NO_SYNOPSIS)
    case Null => None
    case Text(s) => if s != "" && |s| > SYNOPSIS_LIMIT then Some(s[..SYNOPSIS_LIMIT] + ELLIPSIS) else Some(s)
  }

  /** The description the handler evidently means to give: the placeholder
      text whenever the answer has no synopsis, whether the key is missing or
      `null`; otherwise the same cutting rule. */
  function IntendedSynopsisDescription(synopsis: JsonString): (d: string)
    ensures synopsis.Missing? || synopsis.Null? ==> d == NO_SYNOPSIS
    ensures synopsis.Text? ==> Some(d) == SynopsisDescription(synopsis)
    ensures |d| <= SYNOPSIS_LIMIT + |ELLIPSIS|
  {
    match synopsis
    case Text(s) => if |s| > SYNOPSIS_LIMIT then s[..SYNOPSIS_LIMIT] + ELLIPSIS else s
    case _ => NO_SYNOPSIS
  }

  /** As written, a `null` synopsis leaves the embed without any description,
      where the placeholder text was intended. */
  lemma NullSynopsisLosesPlaceholder()
    ensures SynopsisDescription(Null) == None
    ensures IntendedSynopsisDescription(Null) == NO_SYNOPSIS
  {
  }

  /** The two definitions differ on exactly that input. */
  lemma IntendedDiffersOnlyOnNull(synopsis: JsonString)
    ensures SynopsisDescription(synopsis) != Some(IntendedSynopsisDescription(synopsis)) <==> synopsis.Null?
  {
  }

  /** Cutting is idempotent: a description fed back in comes out unchanged. */
  lemma SynopsisIdempotent(s: string)
    ensures var d := SynopsisDescription(Text(s));
      d.Some? && SynopsisDescription(Text(d.value)) == d
  {
    if |s| > SYNOPSIS_LIMIT {
      var d := s[..SYNOPSIS_LIMIT] + ELLIPSIS;
      assert d[..SYNOPSIS_LIMIT] == s[..SYNOPSIS_LIMIT];
    }
  }

  /** Every description fits in 503 characters. */
  lemma SynopsisBounded(synopsis: JsonString)
    ensures var d := SynopsisDescription(synopsis);
      d.Some? ==> |d.value| <= SYNOPSIS_LIMIT + |ELLIPSIS|
  {
  }

  /** The genre field of bot.py:280-282: added only for a non-empty list
      (`if anime.get("genres"):`), showing the first five genres, joined by ", ". */
  function GenreField(genres: seq<string>): (f: Option<Field>)
    ensures f.Some? <==> genres != []
    ensures f.Some? ==> f.value.name == GENRE_TITLE && f.value.value == Join(Take(genres, MAX_GENRES), ", ")
    ensures f.Some? ==> f.value.value <= Join(genres, ", ")
  {
    if genres == [] then None
    else
      JoinTakeIsPrefix(genres, MAX_GENRES, ", ");
      Some(Field(GENRE_TITLE, Join(Take(genres, MAX_GENRES), ", ")))
  }

  /** The studio field of bot.py:285-287: the same rule with the first three studios. */
  function StudioField(studios: seq<string>): (f: Option<Field>)
    ensures f.Some? <==> studios != []
    ensures f.Some? ==> f.value.name == STUDIO_TITLE && f.value.value == Join(Take(studios, MAX_STUDIOS), ", ")
    ensures f.Some? ==> f.value.value <= Join(studios, ", ")
  {
    if studios == [] then None
    else
      JoinTakeIsPrefix(studios, MAX_STUDIOS, ", ");
      Some(Field(STUDIO_TITLE, Join(Take(studios, MAX_STUDIOS), ", ")))
  }

  /** The tags field of bot.py:344-347. It is added whenever the answer has a
      `tags` key, even for an empty list, and shows the first three tags. */
  function TagsField(tags: Option<seq<string>>): (f: Option<Field>)
    ensures f.Some? <==> tags.Some?
    ensures f.Some? ==> f.value == Field(TAGS_TITLE, Join(Take(tags.value, MAX_TAGS), ", "))
    ensures f.Some? ==> f.value.value <= Join(tags.value, ", ")
  {
    match tags
    case None => None
    case Some(t) =>
      JoinTakeIsPrefix(t, MAX_TAGS, ", ");
      Some(Field(TAGS_TITLE, Join(Take(t, MAX_TAGS), ", ")))
  }
}
